/// The buffer of a terminal: an array of rows, and a ring array that rows are swapped with.
module ScreenBuffer {
  import opened Arith
  import opened Scrollback

  datatype Attr = Bold | Dim | Italic | Underline | Blink | Reverse | Invisible
  datatype Cell = Cell(text: int, attr: set<Attr>, fg: int, bg: int)
  datatype Row = Row(cells: seq<Cell>, dirty: bool)

  const BLANK := Cell(0, {}, -1, -1)

  ghost function CellsOf(rows: seq<Row>): (r: seq<seq<Cell>>)
    ensures |r| == |rows|
  {
    seq(|rows|, i requires 0 <= i < |rows| => rows[i].cells)
  }

  ghost predicate AllDirty(rows: seq<Row>) {
    forall i :: 0 <= i < |rows| ==> rows[i].dirty
  }

  // Every row that is not as it was will be drawn again.
  ghost predicate Marked(was: seq<Row>, now: seq<Row>) {
    |now| == |was| && forall i :: 0 <= i < |now| ==> now[i].dirty || now[i] == was[i]
  }

  // The marks after a scroll of the region by s. With a ring, a scroll up by whole screenfuls only exchanges rows.
  ghost predicate ScrollMarks(was: seq<Row>, wasRing: seq<Row>, now: seq<Row>, nowRing: seq<Row>, top: int, bot: int,
                              s: int)
  {
    && 0 <= top < bot <= |was| == |now| && |nowRing| == |wasRing|
    && now[..top] == was[..top] && now[bot..] == was[bot..]
    && (s % (bot - top) != 0 || (s < 0 && wasRing != []) ==> AllDirty(now[top..bot]))
    && (s == 0 || (s % (bot - top) == 0 && wasRing == []) ==> now == was)
    && (s > 0 && s % (bot - top) == 0 && wasRing != [] ==>
          multiset(now) + multiset(nowRing) == multiset(was) + multiset(wasRing))
  }

  lemma ScrollMarksTwice(was: seq<Row>, wasRing: seq<Row>, mid: seq<Row>, midRing: seq<Row>, now: seq<Row>,
                         nowRing: seq<Row>, top: int, bot: int, s: int, t: int)
    requires ScrollMarks(was, wasRing, mid, midRing, top, bot, s)
    requires ScrollMarks(mid, midRing, now, nowRing, top, bot, t)
    requires if s > 0 then s == bot - top && t > 0 else s == top - bot && t < 0
    ensures ScrollMarks(was, wasRing, now, nowRing, top, bot, s + t)
  {
    hide AllDirty;
    var n := bot - top;
    ModRange(0, s, n);
    ModShift(t, n);
  }

  lemma NoMarks(rows: seq<Row>, ring: seq<Row>, top: int, bot: int)
    requires 0 <= top < bot <= |rows|
    ensures ScrollMarks(rows, ring, rows, ring, top, bot, 0)
  {
  }

  lemma ModShift(t: int, n: nat)
    requires n > 0
    ensures (n + t) % n == t % n && (t - n) % n == t % n
  {
    var q := t / n;
    assert t == q * n + t % n;
    assert (q + 1) * n == q * n + n && (q - 1) * n == q * n - n;
    Quotient(n + t, n, q + 1);
    Quotient(t - n, n, q - 1);
  }

  // Rows rolled down, and the top s of them replaced from the ring if there is one.
  lemma PulledMarks(was: seq<Row>, wasRing: seq<Row>, mid: seq<Row>, now: seq<Row>, nowRing: seq<Row>, top: int,
                    bot: int, s: nat)
    requires RollMarks(was, mid, top, bot, 0 - s) && s <= bot - top && |nowRing| == |wasRing|
    requires if wasRing == [] then now == mid else PullMarks(mid, now, top, s)
    ensures ScrollMarks(was, wasRing, now, nowRing, top, bot, 0 - s)
  {
    ModRange(0, 0 - s, bot - top);
    assert now[bot..] == now[top + s..][bot - top - s..] && mid[bot..] == mid[top + s..][bot - top - s..];
    if wasRing != [] && s > 0 {
      forall i | top <= i < bot ensures now[i].dirty {
        if i < top + s {
          assert now[i] == now[top..top + s][i - top];
        } else {
          assert now[i] == now[top + s..][i - top - s] == mid[i] == mid[top..bot][i - top];
        }
      }
    }
  }

  lemma BottomMarked(was: seq<Row>, wasRing: seq<Row>, mid: seq<Row>, midRing: seq<Row>, now: seq<Row>, top: int,
                     bot: int)
    requires ScrollMarks(was, wasRing, mid, midRing, top, bot, 1) && |now| == |mid|
    requires now[bot - 1].dirty && now == mid[bot - 1 := now[bot - 1]]
    ensures now[..top] == was[..top] && now[bot..] == was[bot..] && AllDirty(now[top..bot])
  {
    ModRange(0, 1, bot - top);
    if bot - top > 1 {
      forall i | 0 <= i < bot - top ensures now[top..bot][i].dirty {
        assert i < bot - top - 1 ==> now[top..bot][i] == mid[top..bot][i];
      }
    }
  }

  lemma OneMarked(was: seq<Row>, i: nat, cells: seq<Cell>)
    requires i < |was|
    ensures Marked(was, was[i := Row(cells, true)])
  {
  }

  lemma RegionMarked(was: seq<Row>, mid: seq<Row>, now: seq<Row>, top: int, bot: int)
    requires Marked(was, mid) && 0 <= top <= bot <= |now| == |mid|
    requires now[..top] == mid[..top] && now[bot..] == mid[bot..] && AllDirty(now[top..bot])
    ensures Marked(was, now)
  {
    forall i | 0 <= i < |now| ensures now[i].dirty || now[i] == was[i] {
      if i < top {
        assert now[i] == now[..top][i] == mid[..top][i];
      } else if i >= bot {
        assert now[i] == now[bot..][i - bot] == mid[bot..][i - bot];
      } else {
        assert now[i] == now[top..bot][i - top];
      }
    }
  }

  // Without a whole number of screenfuls upwards, every row that changes is marked.
  lemma ScrollIsMarked(was: seq<Row>, wasRing: seq<Row>, now: seq<Row>, nowRing: seq<Row>, top: int, bot: int, s: int)
    requires ScrollMarks(was, wasRing, now, nowRing, top, bot, s)
    requires !(s > 0 && s % (bot - top) == 0 && wasRing != [])
    ensures Marked(was, now)
  {
    forall i | 0 <= i < |now| ensures now[i].dirty || now[i] == was[i] {
      if i < top {
        assert now[..top][i] == was[..top][i];
      } else if i >= bot {
        assert now[bot..][i - bot] == was[bot..][i - bot];
      } else {
        assert now[i] == now[top..bot][i - top];
      }
    }
  }

  ghost predicate Unmarked(rows: seq<Row>) {
    forall i :: 0 <= i < |rows| ==> !rows[i].dirty
  }

  lemma StillUnmarked(was: seq<Row>, wasRing: seq<Row>, now: seq<Row>, nowRing: seq<Row>)
    requires multiset(now) + multiset(nowRing) == multiset(was) + multiset(wasRing)
    requires Unmarked(was) && Unmarked(wasRing)
    ensures Unmarked(now)
  {
    forall i | 0 <= i < |now| ensures !now[i].dirty {
      assert now[i] in now && now[i] in multiset(now) + multiset(nowRing);
      assert now[i] in was || now[i] in wasRing;
    }
  }

  // The first rows of the region were exchanged with the ring, marks and all.
  ghost predicate Exchanged(was: seq<Row>, wasRing: seq<Row>, now: seq<Row>, nowRing: seq<Row>, top: int, bot: int,
                            s: nat)
  {
    && 0 <= top < bot <= |was| == |now| && |nowRing| == |wasRing|
    && now[..top] == was[..top] && now[bot..] == was[bot..] && (s == 0 ==> now == was)
    && multiset(now) + multiset(nowRing) == multiset(was) + multiset(wasRing)
  }

  // One row exchanged with one of the ring.
  ghost predicate Swapped(was: seq<Row>, wasRing: seq<Row>, now: seq<Row>, nowRing: seq<Row>, row: int, j: int) {
    && 0 <= row < |was| && 0 <= j < |wasRing|
    && now == was[row := wasRing[j]] && nowRing == wasRing[j := was[row]]
  }

  lemma ExchangedNone(was: seq<Row>, wasRing: seq<Row>, top: int, bot: int)
    requires 0 <= top < bot <= |was|
    ensures Exchanged(was, wasRing, was, wasRing, top, bot, 0)
  {
  }

  lemma ExchangedNext(was: seq<Row>, wasRing: seq<Row>, mid: seq<Row>, midRing: seq<Row>, now: seq<Row>,
                      nowRing: seq<Row>, top: int, bot: int, s: nat, j: int)
    requires Exchanged(was, wasRing, mid, midRing, top, bot, s) && top + s < bot
    requires Swapped(mid, midRing, now, nowRing, top + s, j)
    ensures Exchanged(was, wasRing, now, nowRing, top, bot, s + 1)
  {
    ExchangeAsMany(mid, top + s, midRing, j);
  }

  // A roll of the region by so many rows marks all of it, or changes nothing.
  ghost predicate RollMarks(was: seq<Row>, now: seq<Row>, top: int, bot: int, count: int) {
    && 0 <= top < bot <= |was| == |now| && now[..top] == was[..top] && now[bot..] == was[bot..]
    && if count % (bot - top) == 0 then now == was else AllDirty(now[top..bot])
  }

  // The first s rows of the region came from the ring.
  ghost predicate PullMarks(was: seq<Row>, now: seq<Row>, top: int, s: nat) {
    && 0 <= top && top + s <= |was| == |now| && now[..top] == was[..top] && now[top + s..] == was[top + s..]
    && AllDirty(now[top..top + s])
  }

  // Then the region is rolled up by s rows.
  lemma PushedMarks(was: seq<Row>, wasRing: seq<Row>, mid: seq<Row>, midRing: seq<Row>, now: seq<Row>, top: int,
                    bot: int, s: nat)
    requires if wasRing == [] then mid == was && midRing == [] && 0 <= top < bot <= |was|
      else Exchanged(was, wasRing, mid, midRing, top, bot, s)
    requires RollMarks(mid, now, top, bot, s) && s <= bot - top
    ensures ScrollMarks(was, wasRing, now, midRing, top, bot, s)
  {
    hide AllDirty;
    ModRange(0, s, bot - top);
  }

  lemma ExchangeAsMany(a: seq<Row>, i: nat, b: seq<Row>, j: nat)
    requires i < |a| && j < |b|
    ensures multiset(a[i := b[j]]) + multiset(b[j := a[i]]) == multiset(a) + multiset(b)
  {
    assert a == a[..i] + [a[i]] + a[i + 1..] && b == b[..j] + [b[j]] + b[j + 1..];
    assert a[i := b[j]] == a[..i] + [b[j]] + a[i + 1..] && b[j := a[i]] == b[..j] + [a[i]] + b[j + 1..];
  }

  // Rotation to the left.
  ghost function Rolled<T>(s: seq<T>, k: nat): (r: seq<T>)
    requires k <= |s|
    ensures |r| == |s|
  {
    s[k..] + s[..k]
  }

  // row_set: fills `len` cells from `start` on.
  function CellsSet(cells: seq<Cell>, start: int, len: int, cell: Cell): (r: seq<Cell>)
    ensures |r| == |cells|
  {
    seq(|cells|, i requires 0 <= i < |cells| => if start <= i < start + len then cell else cells[i])
  }

  // The remainder of C, which has the sign of the dividend.
  function Remainder(a: int, n: nat): int
    requires n > 0
  {
    if a >= 0 then a % n else -((-a) % n)
  }

  // Rotates rows start..end by count to the left, or to the right if count is negative.
  method RowRoll(a: array<Row>, start: nat, end: nat, count: int)
    requires start < end <= a.Length
    modifies a
    ensures CellsOf(a[..]) == RolledWithin(old(CellsOf(a[..])), start, end, count % (end - start))
    ensures count % (end - start) == 0 ==> a[..] == old(a[..])
    ensures a[..start] == old(a[..start]) && a[end..] == old(a[end..])
    ensures count % (end - start) != 0 ==> AllDirty(a[start..end])
  {
    hide CellsOf, RolledWithin;
    RolledInside(a[..], start, end);
    var n := end - start;
    var k := Remainder(count, n);
    if k < 0 {
      k := k + n;
    }
    RemainderWraps(count, n);
    CellsRolled(a[..], start, end, k);
    if k != 0 {
      Rotate(a, start, end, k);
      MarkDirty(a, start, end);
    }
  }

  lemma CellsRolled(rows: seq<Row>, start: nat, end: nat, k: nat)
    requires start <= end <= |rows| && k <= end - start
    ensures CellsOf(RolledWithin(rows, start, end, k)) == RolledWithin(CellsOf(rows), start, end, k)
    ensures k == 0 ==> RolledWithin(CellsOf(rows), start, end, k) == CellsOf(rows)
  {
    var r, q := RolledWithin(rows, start, end, k), RolledWithin(CellsOf(rows), start, end, k);
    forall i | 0 <= i < |rows| ensures CellsOf(r)[i] == q[i] {
      assert CellsOf(r)[i] == r[i].cells;
      assert k == 0 ==> r[i] == rows[i];
    }
  }

  lemma RolledInside<T>(s: seq<T>, start: nat, end: nat)
    requires start <= end <= |s|
    ensures forall k :: 0 <= k <= end - start ==>
      RolledWithin(s, start, end, k)[..start] == s[..start] && RolledWithin(s, start, end, k)[end..] == s[end..]
  {
  }

  ghost function RolledWithin<T>(s: seq<T>, start: nat, end: nat, k: nat): (r: seq<T>)
    requires start <= end <= |s| && k <= end - start
    ensures |r| == |s|
  {
    s[..start] + Rolled(s[start..end], k) + s[end..]
  }

  // memcpy of the first k rows aside, memmove of the others, memcpy back at the end.
  method Rotate(a: array<Row>, start: nat, end: nat, k: nat)
    requires start <= end <= a.Length && k <= end - start
    modifies a
    ensures a[..] == RolledWithin(old(a[..]), start, end, k)
  {
    hide Moved, RolledWithin;
    ghost var was, from := a[..], start + k;
    var buf := a[start..start + k];
    MovedEnds(was, start, end, k);
    for i := 0 to end - start - k
      invariant a[..] == Moved(was, was, start, from, i)
    {
      MoveStep(was, was, start, from, i);
      Set(a, start + i, a[start + k + i]);
    }
    ghost var moved := a[..];
    for i := 0 to k
      invariant a[..] == Moved(moved, buf, end - k, 0, i)
    {
      CopyStep(moved, buf, end - k, i);
      Set(a, end - k + i, buf[i]);
    }
  }

  // The rows with i rows of src, from `from` on, copied to `start`.
  ghost function Moved<T>(was: seq<T>, src: seq<T>, start: nat, from: nat, i: nat): (now: seq<T>)
    requires start + i <= |was| && from + i <= |src|
    ensures |now| == |was|
  {
    was[..start] + src[from..from + i] + was[start + i..]
  }

  lemma MoveStep<T>(was: seq<T>, src: seq<T>, start: nat, from: nat, i: nat)
    requires start <= from && from + i < |was| && src == was
    ensures Moved(was, src, start, from, i)[from + i] == was[from + i]
    ensures Moved(was, src, start, from, i)[start + i := was[from + i]] == Moved(was, src, start, from, i + 1)
  {
    assert Moved(was, src, start, from, i)[from + i] == was[start + i..][from - start];
    CopyNext(was, src, start, from, i);
  }

  lemma CopyStep<T>(was: seq<T>, src: seq<T>, start: nat, i: nat)
    requires start + i < |was| && i < |src|
    ensures Moved(was, src, start, 0, i)[start + i := src[i]] == Moved(was, src, start, 0, i + 1)
  {
    CopyNext(was, src, start, 0, i);
  }

  lemma CopyNext<T>(was: seq<T>, src: seq<T>, start: nat, from: nat, i: nat)
    requires start + i < |was| && from + i < |src|
    ensures Moved(was, src, start, from, i)[start + i := src[from + i]] == Moved(was, src, start, from, i + 1)
  {
    assert src[from..from + i + 1] == src[from..from + i] + [src[from + i]];
    assert was[start + i..] == [was[start + i]] + was[start + i + 1..];
    AppendUpdate(was[..start] + src[from..from + i], was[start + i], was[start + i + 1..], src[from + i]);
  }

  lemma AppendUpdate<T>(a: seq<T>, x: T, b: seq<T>, y: T)
    ensures (a + ([x] + b))[|a| := y] == a + [y] + b
  {
  }

  // Where the two copies start and end.
  lemma MovedEnds<T>(was: seq<T>, start: nat, end: nat, k: nat)
    requires start <= end <= |was| && k <= end - start
    ensures Moved(was, was, start, start + k, 0) == was
    ensures var moved := Moved(was, was, start, start + k, end - start - k);
      && Moved(moved, was[start..start + k], end - k, 0, 0) == moved
      && Moved(moved, was[start..start + k], end - k, 0, k) == RolledWithin(was, start, end, k)
  {
    var moved := Moved(was, was, start, start + k, end - start - k);
    assert moved[..end - k] == was[..start] + was[start + k..end];
    assert moved[end..] == was[end..];
    assert was[start..end][k..] == was[start + k..end] && was[start..end][..k] == was[start..start + k];
  }

  method Set(a: array<Row>, i: nat, row: Row)
    requires i < a.Length
    modifies a
    ensures a[..] == old(a[..])[i := row]
  {
    a[i] := row;
  }

  method MarkDirty(a: array<Row>, start: nat, end: nat)
    requires start <= end <= a.Length
    modifies a
    ensures CellsOf(a[..]) == old(CellsOf(a[..]))
    ensures AllDirty(a[start..end]) && a[..start] == old(a[..start]) && a[end..] == old(a[end..])
  {
    for i := start to end
      invariant CellsOf(a[..]) == old(CellsOf(a[..]))
      invariant a[..start] == old(a[..start]) && a[end..] == old(a[end..])
      invariant forall j :: start <= j < i ==> a[j].dirty
    {
      SameCells(a[..], i);
      a[i] := a[i].(dirty := true);
    }
  }

  lemma SameCells(rows: seq<Row>, i: nat)
    requires i < |rows|
    ensures CellsOf(rows[i := rows[i].(dirty := true)]) == CellsOf(rows)
  {
  }

  lemma RemainderWraps(a: int, n: nat)
    requires n > 0
    ensures a % n == if Remainder(a, n) < 0 then Remainder(a, n) + n else Remainder(a, n)
  {
    if a < 0 {
      var b := -a;
      var q := b / n;
      assert b == q * n + b % n;
      assert (-q) * n == -(q * n) && (-q - 1) * n == -(q * n) - n;
      if b % n == 0 {
        Quotient(a, n, -q);
      } else {
        Quotient(a, n, -q - 1);
      }
    }
  }

  // A pointer to a row: none, into lines, or into the ring.
  datatype RowPtr = NoRow | OnScreen(row: int) | InRing(slot: int)

  // What a change of width makes of a row. Only a screen that becomes wider than it ever was gets new
  // cells, and then the cells past the old width are blank; a row that is not widened keeps all its cells.
  ghost predicate Stretched(was: seq<Cell>, now: seq<Cell>, cols: int, maxcols: int, newCols: int) {
    if newCols <= maxcols then now == was
    else
      && |now| == newCols
      && forall j :: 0 <= j < newCols ==>
        (j < cols && j < |was| ==> now[j] == was[j]) && (j >= cols || j >= |was| ==> now[j] == BLANK)
  }

  ghost function Widened(cells: seq<Cell>, cols: int, maxcols: int, newCols: int): (r: seq<Cell>) {
    if maxcols < newCols && 0 <= newCols then
      seq(newCols, i requires 0 <= i => if i < cols && i < |cells| then cells[i] else BLANK)
    else cells
  }

  lemma WidenedIs(was: seq<Cell>, now: seq<Cell>, cols: int, maxcols: int, newCols: int)
    requires 0 <= newCols
    ensures Stretched(was, now, cols, maxcols, newCols) <==> now == Widened(was, cols, maxcols, newCols)
  {
  }

  ghost function AllWidened(rows: seq<seq<Cell>>, cols: int, maxcols: int, newCols: int): (r: seq<seq<Cell>>)
    ensures |r| == |rows|
  {
    seq(|rows|, i requires 0 <= i < |rows| => Widened(rows[i], cols, maxcols, newCols))
  }

  function BlankRow(width: int, pen: Cell): seq<Cell> {
    seq(if width < 0 then 0 else width, _ => pen)
  }

  // Rows that a taller screen starts out with.
  ghost function Fill(count: nat, width: int, pen: Cell): (r: seq<seq<Cell>>)
    ensures |r| == count
  {
    seq(count, _ => BlankRow(width, pen))
  }

  // How far buffer_resize scrolls up so that the cursor's row is not chopped off.
  ghost function Lifted(cursRow: int, rows: int): nat {
    if cursRow >= rows then cursRow - rows + 1 else 0
  }

  // How far it scrolls back down to fill a taller screen from the scrollback.
  ghost function Backfilled(cursRow: int, scrollBot: int, oldRows: int, rows: int, above: nat): nat {
    if oldRows < rows && cursRow >= scrollBot - 1 && rows - cursRow - 1 > 0 then
      (if rows - cursRow - 1 > above then above else rows - cursRow - 1)
    else 0
  }

  ghost function Capped(above: int, size: int): int {
    if above >= size then size else above
  }

  ghost function Within(a: int, lo: int, hi: int): int {
    if a < lo then lo else if a >= hi then hi - 1 else a
  }

  // What a resize makes of the lines shown, of which the region and the ring are scrolled up first, before it fills
  // a taller screen from the scrollback: the lines that do not fit are chopped off, the others and those of the
  // ring change their width, and new ones are blank in the pen's colours.
  ghost predicate Restretched(shown: seq<seq<Cell>>, up: Strip<seq<Cell>>, rows: int, cols: int, maxcols: int,
                              newCols: int, pen: Cell, to: Strip<seq<Cell>>) {
    && to.Valid() && |to.region| == rows && |to.ring| == |up.ring| && to.index == up.index
    && (forall i :: 0 <= i < rows && i < |shown| ==> Stretched(shown[i], to.region[i], cols, maxcols, newCols))
    && (forall i :: |shown| <= i < rows ==>
          && |to.region[i]| == (if newCols > maxcols then newCols else maxcols)
          && forall cell :: cell in to.region[i] ==> cell == pen)
    && (forall i :: 0 <= i < |up.ring| ==> Stretched(up.ring[i], to.ring[i], cols, maxcols, newCols))
  }

  lemma SameWidth(rows: seq<seq<Cell>>, cols: int, maxcols: int)
    requires cols <= maxcols
    ensures AllWidened(rows, cols, maxcols, cols) == rows
  {
  }

  lemma SameParts<T>(now: seq<T>, was: seq<T>, top: nat, bot: nat)
    requires |now| == |was| && top <= bot <= |now| && now[..top] == was[..top] && now[bot..] == was[bot..]
    requires now[top..bot] == was[top..bot]
    ensures now == was
  {
    assert now == now[..top] + now[top..bot] + now[bot..];
  }

  lemma NoScrollIs<T>(st: Strip<T>)
    requires st.Valid()
    ensures ScrollBy(st, 0) == st
  {
  }

  lemma NoFill(kept: seq<seq<Cell>>, width: int, pen: Cell)
    ensures kept + Fill(0, width, pen) == kept
  {
  }

  lemma ScrollIs<T>(st: Strip<T>, s: int)
    requires st.Valid()
    ensures ScrollBy(st, s) == if s >= 0 then UpBy(st, s) else DownBy(st, -s)
  {
  }

  function Min(a: int, b: int): int {
    if a < b then a else b
  }

  function Max(a: int, b: int): int {
    if a < b then b else a
  }

  lemma CellsUpdated(rows: seq<Row>, i: nat, row: Row)
    requires i < |rows|
    ensures CellsOf(rows[i := row]) == CellsOf(rows)[i := row.cells]
  {
  }

  lemma WidenNothing(was: seq<seq<Cell>>, n: nat, cols: int, maxcols: int, newCols: int)
    requires n <= |was|
    ensures n == 0 || maxcols >= newCols ==> AllWidened(was[..n], cols, maxcols, newCols) + was[n..] == was
  {
  }

  method WidenRows(a: array<Row>, n: nat, cols: int, maxcols: int, newCols: int)
    requires n <= a.Length && 0 < newCols
    modifies a
    ensures CellsOf(a[..]) == AllWidened(old(CellsOf(a[..]))[..n], cols, maxcols, newCols) + old(CellsOf(a[..]))[n..]
    ensures if maxcols < newCols then forall i :: 0 <= i < n ==> a[i].dirty else a[..] == old(a[..])
  {
    hide AllWidened, Widened, CellsOf, RowsWidened;
    if maxcols < newCols {
      RowsWidenedIs(a[..], n, cols, maxcols, newCols);
      WidenEach(a, n, cols, maxcols, newCols);
    } else {
      WidenNothing(CellsOf(a[..]), n, cols, maxcols, newCols);
    }
  }

  // The first n rows widened, and marked.
  ghost function RowsWidened(rows: seq<Row>, n: nat, cols: int, maxcols: int, newCols: int): (r: seq<Row>)
    ensures |r| == |rows|
  {
    seq(|rows|, i requires 0 <= i < |rows| =>
      if i < n then Row(Widened(rows[i].cells, cols, maxcols, newCols), true) else rows[i])
  }

  lemma RowsWidenedStep(rows: seq<Row>, n: nat, cols: int, maxcols: int, newCols: int)
    requires n < |rows|
    ensures RowsWidened(rows, 0, cols, maxcols, newCols) == rows
    ensures RowsWidened(rows, n, cols, maxcols, newCols)[n] == rows[n]
    ensures RowsWidened(rows, n, cols, maxcols, newCols)[n := Row(Widened(rows[n].cells, cols, maxcols, newCols), true)]
         == RowsWidened(rows, n + 1, cols, maxcols, newCols)
  {
    hide Widened;
  }

  lemma RowsWidenedIs(rows: seq<Row>, n: nat, cols: int, maxcols: int, newCols: int)
    requires n <= |rows|
    ensures RowsWidened(rows, 0, cols, maxcols, newCols) == rows
    ensures var r := RowsWidened(rows, n, cols, maxcols, newCols);
      && CellsOf(r) == AllWidened(CellsOf(rows)[..n], cols, maxcols, newCols) + CellsOf(rows)[n..]
      && forall i :: 0 <= i < n ==> r[i].dirty
  {
    hide Widened;
  }

  method WidenEach(a: array<Row>, n: nat, cols: int, ghost maxcols: int, newCols: int)
    requires n <= a.Length && 0 < newCols && maxcols < newCols
    modifies a
    ensures a[..] == RowsWidened(old(a[..]), n, cols, maxcols, newCols)
  {
    hide RowsWidened, Widened;
    ghost var was := a[..];
    RowsWidenedIs(was, 0, cols, maxcols, newCols);
    for i := 0 to n
      invariant a[..] == RowsWidened(was, i, cols, maxcols, newCols)
    {
      RowsWidenedStep(was, i, cols, maxcols, newCols);
      WidenRow(a, i, cols, maxcols, newCols);
    }
  }

  // realloc of the cells, and row_set on those past the old width.
  method WidenRow(a: array<Row>, i: nat, cols: int, ghost maxcols: int, newCols: int)
    requires i < a.Length && maxcols < newCols && 0 <= newCols
    modifies a
    ensures a[..] == old(a[..])[i := Row(Widened(old(a[i].cells), cols, maxcols, newCols), true)]
  {
    var was := a[i].cells;
    var wide := seq(newCols, j requires 0 <= j => if j < |was| then was[j] else BLANK);
    if cols < newCols {
      wide := CellsSet(wide, cols, newCols - cols, BLANK);
    }
    assert wide == Widened(was, cols, maxcols, newCols);
    a[i] := Row(wide, true);
  }

  // The marks after a resize: a new row is marked, and so is every row when the width has changed. Any other row is
  // the old one or marked, unless the rows were only exchanged before, by a scroll by whole screenfuls.
  ghost predicate Refreshed(was: seq<Row>, now: seq<Row>, wider: bool, whole: bool) {
    forall i :: 0 <= i < |now| ==> now[i].dirty || (i < |was| && !wider && (whole || now[i] == was[i]))
  }

  lemma AfterScroll(was: seq<Row>, wasRing: seq<Row>, mid: seq<Row>, midRing: seq<Row>, now: seq<Row>, top: int,
                    bot: int, s: nat, wider: bool, whole: bool)
    requires Refreshed(mid, now, wider, whole)
    requires ScrollMarks(was, wasRing, mid, midRing, top, bot, s)
    ensures Refreshed(was, now, wider, whole || (s > 0 && s % (bot - top) == 0 && wasRing != []))
  {
    hide AllDirty;
    if !(s > 0 && s % (bot - top) == 0 && wasRing != []) {
      ScrollIsMarked(was, wasRing, mid, midRing, top, bot, s);
    }
  }

  lemma KeptAndNew(was: seq<Row>, mid: seq<Row>, now: seq<Row>, kept: nat, wider: bool)
    requires kept <= |was| && kept <= |mid| == |now| && now[..kept] == mid[..kept] && AllDirty(now[kept..])
    requires forall i :: 0 <= i < kept ==> mid[i].dirty || (!wider && mid[i] == was[i])
    ensures Refreshed(was, now, wider, false)
  {
    forall i | 0 <= i < |now| ensures now[i].dirty || (i < |was| && !wider && now[i] == was[i]) {
      if i < kept {
        assert now[i] == now[..kept][i] == mid[..kept][i];
      } else {
        assert now[i] == now[kept..][i - kept];
      }
    }
  }

  // realloc of the row array, then the rows of a taller screen.
  method Reallocate(a: array<Row>, rows: nat, cols: int, maxcols: int, newCols: int, pen: Cell)
    returns (b: array<Row>)
    requires 0 < newCols
    ensures fresh(b) && CellsOf(b[..]) ==
      AllWidened(CellsOf(a[..])[..Min(a.Length, rows)], cols, maxcols, newCols)
      + Fill(rows - Min(a.Length, rows), Max(maxcols, newCols), pen)
    ensures Refreshed(a[..], b[..], cols != newCols, false)
  {
    hide AllWidened, Widened, BlankRow, Refreshed;
    var kept, was := Min(a.Length, rows), a[..];
    b := new Row[rows](i requires 0 <= i => if i < |was| then was[i] else Row([], false));
    assert CellsOf(b[..])[..kept] == CellsOf(was)[..kept];
    WidenRows(b, kept, cols, maxcols, newCols);
    if newCols <= maxcols && cols != newCols {
      MarkDirty(b, 0, kept);
    }
    ghost var wide := CellsOf(b[..])[..kept];
    assert wide == AllWidened(CellsOf(was)[..kept], cols, maxcols, newCols);
    ghost var mid := b[..];
    assert newCols <= maxcols && cols != newCols ==> forall i :: 0 <= i < kept ==> mid[i] == b[0..kept][i];
    FillRows(b, kept, Max(maxcols, newCols), pen);
    KeptAndNew(was, mid, b[..], kept, cols != newCols);
  }

  method FillRows(b: array<Row>, kept: nat, width: int, pen: Cell)
    requires kept <= b.Length
    modifies b
    ensures CellsOf(b[..]) == old(CellsOf(b[..]))[..kept] + Fill(b.Length - kept, width, pen)
    ensures b[..kept] == old(b[..kept]) && AllDirty(b[kept..])
  {
    hide BlankRow, CellsOf;
    ghost var was := CellsOf(b[..]);
    for i := kept to b.Length
      invariant CellsOf(b[..]) == was[..kept] + Fill(i - kept, width, pen) + was[i..]
      invariant b[..kept] == old(b[..kept]) && forall j :: kept <= j < i ==> b[j].dirty
    {
      CellsUpdated(b[..], i, Row(BlankRow(width, pen), true));
      b[i] := Row(BlankRow(width, pen), true);
      FillStep(was, kept, i, width, pen);
    }
  }

  lemma FillStep(was: seq<seq<Cell>>, kept: nat, i: nat, width: int, pen: Cell)
    requires kept <= i < |was|
    ensures (was[..kept] + Fill(i - kept, width, pen) + was[i..])[i := BlankRow(width, pen)]
         == was[..kept] + Fill(i + 1 - kept, width, pen) + was[i + 1..]
  {
  }

  function Wrapped(i: int, size: nat): int {
    if i < 0 then i + size else if i >= size then i - size else i
  }

  ghost predicate Wide(rows: seq<seq<Cell>>, width: int) {
    forall i :: 0 <= i < |rows| ==> |rows[i]| == width
  }

  lemma WideScrolled(st: Strip<seq<Cell>>, s: int, width: int)
    requires st.Valid() && Wide(st.region, width) && Wide(st.ring, width)
    ensures Wide(ScrollBy(st, s).region, width) && Wide(ScrollBy(st, s).ring, width)
  {
    hide ScrollBy;
    var to := ScrollBy(st, s);
    ScrollPermutes(st, s);
    forall r | r in to.region || r in to.ring ensures |r| == width {
      assert Rows(to)[r] > 0;
      assert r in st.region || r in st.ring;
    }
  }

  lemma OneUp(st: Strip<seq<Cell>>)
    requires st.Valid()
    ensures ScrollBy(st, 1) == Up(st)
  {
    assert UpBy(st, 1) == Up(UpBy(st, 0));
  }

  // row_set does not write past the end of the row.
  ghost predicate InRow(cells: seq<Cell>, start: int, len: int) {
    len > 0 ==> 0 <= start && start + len <= |cells|
  }

  // The cells of row i that lie past the visible columns are blanked.
  ghost function TailCleared(rows: seq<seq<Cell>>, i: int, cols: int, maxcols: int): (r: seq<seq<Cell>>)
    requires 0 <= i < |rows|
    ensures |r| == |rows|
  {
    rows[i := CellsSet(rows[i], cols, maxcols - cols, BLANK)]
  }

  ghost function BottomSet(region: seq<seq<Cell>>, cols: int, pen: Cell): (r: seq<seq<Cell>>)
    ensures |r| == |region|
  {
    if region == [] then [] else region[|region| - 1 := CellsSet(region[|region| - 1], 0, cols, pen)]
  }

  ghost predicate BlankLine(line: seq<Cell>, cols: int, pen: Cell) {
    forall j :: 0 <= j < |line| && j < cols ==> line[j] == pen
  }

  class Buffer {
    var lines: array<Row>
    var scrollBuf: array<Row>
    var cursRow: int
    var cursCol: int
    var scrollTop: int
    var scrollBot: int
    var scrollIndex: int
    var scrollAbove: int
    var scrollBelow: int
    var cols: int
    var maxcols: int
    var pen: Cell  // the blank cell in the current attributes and colours
    ghost var screen: seq<seq<Cell>>  // the cells of lines
    ghost var ring: seq<seq<Cell>>    // the cells of scrollBuf

    // buffer_init, in the colours of the default pen.
    constructor (rows: nat, cols: nat, scrollSize: int)
      requires 0 < rows && 0 < cols
      ensures Valid() && FullScreen() && fresh(lines) && fresh(scrollBuf)
      ensures |screen| == rows && |ring| == Max(0, scrollSize) && this.cols == maxcols == cols
      ensures cursRow == 0 && cursCol == 0 && scrollAbove == 0 && scrollBelow == 0 && pen == BLANK && scrollIndex == 0
      ensures forall i :: 0 <= i < rows ==> |screen[i]| == cols && forall cell :: cell in screen[i] ==> cell == BLANK
      ensures forall i :: 0 <= i < |ring| ==> |ring[i]| == cols && forall cell :: cell in ring[i] ==> cell == BLANK
      ensures AllDirty(lines[..]) && AllDirty(scrollBuf[..])
    {
      var blank := Row(BlankRow(cols, BLANK), true);
      lines := new Row[rows](_ => blank);
      scrollBuf := new Row[if scrollSize < 0 then 0 else scrollSize](_ => blank);
      cursRow, cursCol, scrollTop, scrollBot := 0, 0, 0, rows;
      scrollIndex, scrollAbove, scrollBelow := 0, 0, 0;
      this.cols, maxcols, pen := cols, cols, BLANK;
      new;
      screen, ring := CellsOf(lines[..]), CellsOf(scrollBuf[..]);
    }

    ghost predicate Coherent()
      reads this`screen, this`ring, this`lines, this`scrollBuf, lines, scrollBuf
    {
      lines != scrollBuf && screen == CellsOf(lines[..]) && ring == CellsOf(scrollBuf[..])
    }

    ghost predicate Shaped()
      reads this
    {
      && 0 <= scrollTop < scrollBot <= |screen|
      && (if ring == [] then scrollIndex == 0 else 0 <= scrollIndex < |ring|)
    }

    ghost predicate Valid()
      reads this, lines, scrollBuf
    {
      && Coherent() && Shaped()
      && 0 <= scrollAbove && 0 <= scrollBelow && scrollAbove + scrollBelow <= |ring|
    }

    // Every row has maxcols cells, of which cols show.
    ghost predicate Sized()
      reads `cols, `maxcols, `screen, `ring
    {
      0 <= cols <= maxcols && Wide(screen, maxcols) && Wide(ring, maxcols)
    }

    lemma RowSized(row: int)
      requires Sized() && 0 <= row < |screen|
      ensures |screen[row]| == maxcols && 0 <= cols <= maxcols
    {
    }

    twostate lemma SizedScrolled(new s: int)
      requires old(Shaped()) && Shaped() && |screen| == old(|screen|) && Content() == ScrollBy(old(Content()), s)
      requires screen[..scrollTop] == old(screen)[..scrollTop] && screen[scrollBot..] == old(screen)[scrollBot..]
      requires unchanged(`scrollTop) && unchanged(`scrollBot) && unchanged(`cols) && unchanged(`maxcols)
      ensures old(Sized()) ==> Sized()
    {
      hide ScrollBy;
      if old(Sized()) {
        WideScrolled(old(Content()), s, maxcols);
        forall i | 0 <= i < |screen| ensures |screen[i]| == maxcols {
          if i < scrollTop {
            assert screen[i] == screen[..scrollTop][i];
          } else if i < scrollBot {
            assert screen[i] == Content().region[i - scrollTop];
          } else {
            assert screen[i] == screen[scrollBot..][i - scrollBot];
          }
        }
      }
    }

    ghost predicate FullScreen()
      reads this
    {
      scrollTop == 0 && scrollBot == |screen|
    }

    ghost function Content(): (st: Strip<seq<Cell>>)
      requires Shaped()
      reads this
      ensures st.Valid()
    {
      Strip(screen[scrollTop..scrollBot], ring, scrollIndex)
    }

    // Scrollback above ++ viewport ++ scrollback below.
    ghost function Logical(): (h: seq<seq<Cell>>)
      requires Valid()
      reads this, lines, scrollBuf
      ensures |h| == scrollAbove + (scrollBot - scrollTop) + scrollBelow
    {
      History(Content(), scrollAbove, scrollBelow)
    }

    method Scroll(s: int)
      requires Coherent() && Shaped() && scrollAbove <= |ring|
      modifies this`scrollAbove, this`scrollIndex, this`screen, this`ring, lines, scrollBuf
      ensures Coherent() && Shaped() && |screen| == old(|screen|)
      ensures Content() == ScrollBy(old(Content()), s)
      ensures screen[..scrollTop] == old(screen)[..scrollTop] && screen[scrollBot..] == old(screen)[scrollBot..]
      ensures scrollAbove == if old(scrollAbove) + s >= |ring| then |ring| else old(scrollAbove) + s
      ensures ScrollMarks(old(lines[..]), old(scrollBuf[..]), lines[..], scrollBuf[..], scrollTop, scrollBot, s)
      decreases if s >= 0 then s else -s
    {
      // Work in screenfuls.
      hide ScrollBy, UpBy, DownBy, ScrollMarks;
      ghost var was, wasRing := lines[..], scrollBuf[..];
      ScrollIs(Content(), s);
      var ssz := scrollBot - scrollTop;
      if s > ssz {
        ScrollAdds(Content(), ssz, s - ssz);
        Scroll(ssz);
        ghost var mid, midRing := lines[..], scrollBuf[..];
        Scroll(s - ssz);
        ScrollMarksTwice(was, wasRing, mid, midRing, lines[..], scrollBuf[..], scrollTop, scrollBot, ssz, s - ssz);
        return;
      }
      if s < -ssz {
        ScrollAdds(Content(), -ssz, s + ssz);
        Scroll(-ssz);
        ghost var mid, midRing := lines[..], scrollBuf[..];
        Scroll(s + ssz);
        ScrollMarksTwice(was, wasRing, mid, midRing, lines[..], scrollBuf[..], scrollTop, scrollBot, -ssz, s + ssz);
        return;
      }
      scrollAbove := scrollAbove + s;
      if scrollAbove >= scrollBuf.Length {
        scrollAbove := scrollBuf.Length;
      }
      if s >= 0 {
        PushTop(s);
      } else {
        PullTop(-s);
      }
    }

    // buffer_scroll moves rows whole.
    method ScrollRows(s: int)
      requires Coherent() && Shaped() && scrollAbove <= |ring|
      modifies this`scrollAbove, this`scrollIndex, this`screen, this`ring, lines, scrollBuf
      ensures Coherent() && Shaped() && |screen| == old(|screen|) && (old(Sized()) ==> Sized())
      ensures Content() == ScrollBy(old(Content()), s)
      ensures screen[..scrollTop] == old(screen)[..scrollTop] && screen[scrollBot..] == old(screen)[scrollBot..]
      ensures scrollAbove == if old(scrollAbove) + s >= |ring| then |ring| else old(scrollAbove) + s
      ensures ScrollMarks(old(lines[..]), old(scrollBuf[..]), lines[..], scrollBuf[..], scrollTop, scrollBot, s)
    {
      hide ScrollBy, Sized, ScrollMarks;
      Scroll(s);
      SizedScrolled(s);
    }

    // How far vt_scroll really goes.
    function Clamped(rows: int): (r: int)
      reads this
    {
      if rows < 0 then (if rows < -scrollAbove then -scrollAbove else rows)
      else (if rows > scrollBelow then scrollBelow else rows)
    }

    // Moves the view over the history without changing the history.
    method VtScroll(rows: int)
      requires Valid()
      modifies this`scrollAbove, this`scrollBelow, this`scrollIndex, this`screen, this`ring, lines, scrollBuf
      ensures Valid() && |screen| == old(|screen|)
      ensures Content() == ScrollBy(old(Content()), old(Clamped(rows)))
      ensures scrollAbove == old(scrollAbove + Clamped(rows)) && scrollBelow == old(scrollBelow - Clamped(rows))
      ensures Logical() == old(Logical()) && (old(Sized()) ==> Sized())
      ensures screen[..scrollTop] == old(screen)[..scrollTop] && screen[scrollBot..] == old(screen)[scrollBot..]
      ensures ScrollMarks(old(lines[..]), old(scrollBuf[..]), lines[..], scrollBuf[..], scrollTop, scrollBot,
        old(Clamped(rows)))
    {
      if scrollBuf.Length == 0 {
        return;
      }
      hide History, ScrollBy, Arc, Sized, ScrollMarks;
      var r := Clamped(rows);
      ScrollKeepsHistory(Content(), scrollAbove, scrollBelow, r);
      ScrollRows(r);
      scrollBelow := scrollBelow - r;
    }

    method NoScroll()
      requires Valid()
      modifies this`scrollAbove, this`scrollBelow, this`scrollIndex, this`screen, this`ring, lines, scrollBuf
      ensures Valid() && |screen| == old(|screen|)
      ensures scrollBelow == 0 && scrollAbove == old(scrollAbove + scrollBelow)
      ensures Content() == ScrollBy(old(Content()), old(scrollBelow)) && Logical() == old(Logical())
      ensures old(Sized()) ==> Sized()
      ensures old(scrollBelow) == 0 ==> screen == old(screen) && ring == old(ring) && scrollIndex == old(scrollIndex)
      ensures screen[..scrollTop] == old(screen)[..scrollTop] && screen[scrollBot..] == old(screen)[scrollBot..]
      ensures ScrollMarks(old(lines[..]), old(scrollBuf[..]), lines[..], scrollBuf[..], scrollTop, scrollBot,
        old(scrollBelow))
    {
      if scrollBelow != 0 {
        VtScroll(scrollBelow);
      }
    }

    // A view that is put back by whole screenfuls, when all that it shows and hides was drawn: other lines show, and
    // none of them will be drawn.
    method PutBackUnmarked()
      requires Valid() && Whole(scrollBelow) && Unmarked(lines[..]) && Unmarked(scrollBuf[..])
      modifies this`scrollAbove, this`scrollBelow, this`scrollIndex, this`screen, this`ring, lines, scrollBuf
      ensures Valid() && Content() == ScrollBy(old(Content()), old(scrollBelow)) && Unmarked(lines[..])
    {
      hide ScrollBy, History, Sized;
      ghost var was, wasRing := lines[..], scrollBuf[..];
      NoScroll();
      StillUnmarked(was, wasRing, lines[..], scrollBuf[..]);
    }

    // One row with another one behind it.
    lemma OtherRowShows()
      requires Valid() && |screen| == 1 && |ring| == 1 && scrollBelow == 1 && screen[0] != ring[0]
      ensures Whole(scrollBelow) && ScrollBy(Content(), scrollBelow).region == ring
    {
      assert UpBy(Content(), 1) == Up(UpBy(Content(), 0));
    }

    // Any run of view scrolls followed by vt_noscroll: everything is back where it was.
    method ScrollAround(moves: seq<int>)
      requires Valid() && scrollBelow == 0
      modifies this`scrollAbove, this`scrollBelow, this`scrollIndex, this`screen, this`ring, lines, scrollBuf
      ensures Valid() && screen == old(screen) && ring == old(ring) && scrollIndex == old(scrollIndex)
      ensures scrollAbove == old(scrollAbove) && scrollBelow == 0
    {
      hide ScrollBy, History, Sized;
      ghost var st, was := Content(), screen;
      NoScrollIs(st);
      for i := 0 to |moves|
        invariant Valid() && |screen| == |was|
        invariant scrollAbove + scrollBelow == old(scrollAbove)
        invariant Content() == ScrollBy(st, 0 - scrollBelow)
        invariant screen[..scrollTop] == was[..scrollTop] && screen[scrollBot..] == was[scrollBot..]
      {
        ScrollCompose(st, 0 - scrollBelow, Clamped(moves[i]));
        VtScroll(moves[i]);
      }
      ScrollCompose(st, 0 - scrollBelow, scrollBelow);
      NoScroll();
      NoScrollIs(st);
      SameParts(screen, was, scrollTop, scrollBot);
    }

    // vt_dirty
    method MarkAll()
      requires Coherent()
      modifies lines
      ensures Coherent() && AllDirty(lines[..])
    {
      MarkDirty(lines, 0, lines.Length);
      assert lines[0..lines.Length] == lines[..];
    }

    // vt_draw, as far as the marks go.
    method Draw()
      requires Coherent()
      modifies lines
      ensures Coherent() && Unmarked(lines[..])
    {
      for i := 0 to lines.Length
        invariant Coherent() && forall j :: 0 <= j < i ==> !lines[j].dirty
      {
        CellsUpdated(lines[..], i, lines[i].(dirty := false));
        lines[i] := lines[i].(dirty := false);
      }
    }

    // The rows of the history, top to bottom.
    ghost function RowOrder(): (r: seq<RowPtr>)
      requires Valid()
      reads this, lines, scrollBuf
      ensures |r| == scrollAbove + |screen| + scrollBelow
    {
      var first, index, size := scrollIndex - scrollAbove, scrollIndex, |ring|;
      seq(scrollAbove, k requires 0 <= k => InRing(Wrapped(first + k, size)))
      + seq(|screen|, k requires 0 <= k => OnScreen(k))
      + seq(scrollBelow, k requires 0 <= k => InRing(Wrapped(index + k, size)))
    }

    ghost function RowAt(p: RowPtr): seq<Cell>
      reads this
    {
      match p
      case OnScreen(i) => if 0 <= i < |screen| then screen[i] else []
      case InRing(i) => if 0 <= i < |ring| then ring[i] else []
      case NoRow => []
    }

    lemma RowOrderAt(k: nat)
      requires Valid() && k < |RowOrder()|
      ensures RowOrder()[k] ==
        if k < scrollAbove then InRing(Wrapped(scrollIndex - scrollAbove + k, |ring|))
        else if k < scrollAbove + |screen| then OnScreen(k - scrollAbove)
        else InRing(Wrapped(scrollIndex + k - scrollAbove - |screen|, |ring|))
    {
    }

    lemma LogicalAt(k: nat)
      requires Valid() && FullScreen() && k < |Logical()|
      ensures Logical()[k] ==
        if k < scrollAbove then Arc(Content(), 0 - scrollAbove, scrollAbove)[k]
        else if k < scrollAbove + |screen| then screen[k - scrollAbove]
        else Arc(Content(), 0, scrollBelow)[k - scrollAbove - |screen|]
    {
    }

    // The rows of the order are different ones.
    lemma RowOrderExact(i: nat, j: nat)
      requires Valid() && i < |RowOrder()| && j < |RowOrder()|
      ensures RowOrder()[i] == RowOrder()[j] <==> i == j
    {
      hide RowOrder;
      RowOrderAt(i);
      RowOrderAt(j);
    }

    // They hold the history, line by line.
    lemma RowOrderLogical(i: nat)
      requires Valid() && FullScreen() && i < |RowOrder()|
      ensures RowAt(RowOrder()[i]) == Logical()[i]
    {
      hide RowOrder, Arc, History;
      RowOrderAt(i);
      LogicalAt(i);
      if i < scrollAbove {
        ArcAt(Content(), 0 - scrollAbove, scrollAbove, i);
      } else if i >= scrollAbove + |screen| {
        ArcAt(Content(), 0, scrollBelow, i - scrollAbove - |screen|);
      }
    }

    // The first and last row of the ring before the viewport, and of the ring after it.
    method Boundary() returns (bs: RowPtr, be: RowPtr, as': RowPtr, ae: RowPtr)
      requires Valid()
      ensures scrollAbove == 0 ==> bs == NoRow && be == NoRow
      ensures scrollAbove > 0 ==> bs == RowOrder()[0] && be == RowOrder()[scrollAbove - 1]
      ensures scrollBelow == 0 ==> as' == NoRow && ae == NoRow
      ensures scrollBelow > 0 ==>
        as' == RowOrder()[scrollAbove + |screen|] && ae == RowOrder()[|RowOrder()| - 1]
    {
      hide RowOrder;
      bs, be, as', ae := NoRow, NoRow, NoRow, NoRow;
      var size := scrollBuf.Length;
      assert size == |ring|;
      if size == 0 {
        return;
      }
      if scrollAbove != 0 {
        RowOrderAt(0);
        RowOrderAt(scrollAbove - 1);
        ModRange(scrollIndex, size - scrollAbove, size);
        ModRange(scrollIndex, size - 1, size);
        bs := InRing((scrollIndex - scrollAbove + size) % size);
        be := InRing((scrollIndex - 1 + size) % size);
      }
      if scrollBelow != 0 {
        RowOrderAt(scrollAbove + |screen|);
        RowOrderAt(|RowOrder()| - 1);
        ModRange(scrollIndex, scrollBelow - 1, size);
        as' := InRing(scrollIndex);
        ae := InRing((scrollIndex + scrollBelow - 1) % size);
      }
    }

    method RowFirst() returns (p: RowPtr)
      requires Valid()
      ensures p == RowOrder()[0]
    {
      if scrollBuf.Length == 0 || scrollAbove == 0 {
        return OnScreen(0);
      }
      var bstart, _, _, _ := Boundary();
      return bstart;
    }

    method RowLast() returns (p: RowPtr)
      requires Valid()
      ensures p == RowOrder()[|RowOrder()| - 1]
    {
      if scrollBuf.Length == 0 || scrollBelow == 0 {
        return OnScreen(lines.Length - 1);
      }
      var _, _, _, aend := Boundary();
      return aend;
    }

    method RowNext(p: RowPtr, ghost k: nat) returns (q: RowPtr)
      requires Valid() && (p == NoRow || (k < |RowOrder()| && p == RowOrder()[k]))
      ensures p == NoRow ==> q == NoRow
      ensures p != NoRow ==> q == if k + 1 < |RowOrder()| then RowOrder()[k + 1] else NoRow
    {
      hide RowOrder;
      if p == NoRow {
        return NoRow;
      }
      var bs, be, as', ae := Boundary();
      RowOrderAt(k);
      if k + 1 < |RowOrder()| {
        RowOrderAt(k + 1);
      }
      match p
      case OnScreen(i) =>
        return if i < lines.Length - 1 then OnScreen(i + 1) else as';
      case InRing(i) =>
        if scrollAbove > 0 {
          RowOrderExact(k, scrollAbove - 1);
        }
        if p == be {
          return OnScreen(0);
        }
        RowOrderExact(k, |RowOrder()| - 1);
        if p == ae {
          return NoRow;
        }
        if i == scrollBuf.Length - 1 {
          return InRing(0);
        }
        return InRing(i + 1);
    }

    method RowPrev(p: RowPtr, ghost k: nat) returns (q: RowPtr)
      requires Valid() && (p == NoRow || (k < |RowOrder()| && p == RowOrder()[k]))
      ensures p == NoRow ==> q == NoRow
      ensures p != NoRow ==> q == if k > 0 then RowOrder()[k - 1] else NoRow
    {
      hide RowOrder;
      if p == NoRow {
        return NoRow;
      }
      var bs, be, as', ae := Boundary();
      RowOrderAt(k);
      if k > 0 {
        RowOrderAt(k - 1);
      }
      match p
      case OnScreen(i) =>
        return if i > 0 then OnScreen(i - 1) else be;
      case InRing(i) =>
        RowOrderExact(k, 0);
        if p == bs {
          return NoRow;
        }
        if scrollBelow > 0 {
          RowOrderExact(k, scrollAbove + |screen|);
        }
        if p == as' {
          return OnScreen(lines.Length - 1);
        }
        if i == 0 {
          return InRing(scrollBuf.Length - 1);
        }
        return InRing(i - 1);
    }

    // From the first row, next visits every row of the history exactly once.
    method Enumerate() returns (rows: seq<RowPtr>)
      requires Valid()
      ensures rows == RowOrder()
    {
      hide RowOrder;
      rows := [];
      var p := RowFirst();
      ghost var order := RowOrder();
      RowOrderAt(0);
      while p != NoRow
        invariant p != NoRow <==> |rows| < |order|
        invariant |rows| <= |order| && rows == order[..|rows|]
        invariant p == if |rows| < |order| then order[|rows|] else NoRow
        decreases |order| - |rows|
      {
        var q := RowNext(p, |rows|);
        if |rows| + 1 < |order| {
          RowOrderAt(|rows| + 1);
        }
        rows := rows + [p];
        p := q;
      }
    }

    method RowSet(row: int, start: int, len: int, cell: Cell)
      requires Coherent() && 0 <= row < |screen| && InRow(screen[row], start, len)
      modifies this`screen, lines
      ensures Coherent() && screen == old(screen)[row := CellsSet(old(screen)[row], start, len, cell)]
      ensures lines[..] == old(lines[..])[row := Row(screen[row], true)]
    {
      lines[row] := Row(CellsSet(lines[row].cells, start, len, cell), true);
      screen := screen[row := CellsSet(screen[row], start, len, cell)];
    }

    method CellsAt(row: int) returns (cells: seq<Cell>)
      requires Coherent() && 0 <= row < |screen|
      ensures cells == screen[row]
    {
      cells := lines[row].cells;
    }

    // The cells of one row in place of what they were.
    method StoreCells(row: int, cells: seq<Cell>)
      requires Coherent() && 0 <= row < |screen|
      modifies this`screen, lines
      ensures Coherent() && screen == old(screen)[row := cells]
      ensures lines[..] == old(lines[..])[row := Row(cells, true)]
    {
      CellsUpdated(lines[..], row, Row(cells, true));
      lines[row] := Row(cells, true);
      screen := screen[row := cells];
    }

    // The region and the ring once the view over rows is put back and a blank row is appended.
    ghost function Appended(rows: seq<seq<Cell>>): (st: Strip<seq<Cell>>)
      requires Shaped() && |rows| == |screen|
      reads this
      ensures st.Valid() && |st.region| == scrollBot - scrollTop && |st.ring| == |ring|
    {
      var st := Up(ScrollBy(Strip(rows[scrollTop..scrollBot], ring, scrollIndex), scrollBelow));
      st.(region := BottomSet(st.region, cols, pen))
    }

    // cursor_line_down. Inside the region the cursor moves; at its bottom the view is put back,
    // the region scrolls by one and its last row is blanked.
    method LineDown()
      requires Valid() && Sized() && 0 <= cursRow < |screen|
      modifies this`scrollAbove, this`scrollBelow, this`scrollIndex, this`screen, this`ring, this`cursRow, lines,
        scrollBuf
      ensures Valid() && Sized() && |screen| == old(|screen|) && |ring| == old(|ring|)
      ensures Marked(old(lines[..]), lines[..])
      ensures cursRow == if old(cursRow) + 1 < scrollBot then old(cursRow) + 1 else scrollBot - 1
      ensures cursRow == old(cursRow) + 1 && cursRow < scrollBot ==>
        screen == TailCleared(old(screen), old(cursRow), cols, maxcols) && ring == old(ring)
          && scrollIndex == old(scrollIndex)
      ensures old(cursRow) + 1 < scrollBot ==> scrollAbove == old(scrollAbove) && scrollBelow == old(scrollBelow)
      ensures old(cursRow) + 1 >= scrollBot ==>
        var cleared := TailCleared(old(screen), old(cursRow), cols, maxcols);
        && scrollBelow == 0 && scrollAbove == Capped(old(scrollAbove + scrollBelow) + 1, |ring|)
        && Content() == old(Appended(TailCleared(screen, cursRow, cols, maxcols)))
        && screen[..scrollTop] == cleared[..scrollTop] && screen[scrollBot..] == cleared[scrollBot..]
      ensures old(cursRow) + 1 >= scrollBot && FullScreen() && ring != [] ==>
        && Logical() ==
          Recent(TailCleared(old(Logical()), old(scrollAbove + cursRow), cols, maxcols)
            + [Logical()[|Logical()| - 1]], |ring| + |screen|)
        && BlankLine(Logical()[|Logical()| - 1], cols, pen)
    {
      hide History, Recent, CellsSet, ScrollBy, BottomSet, Up, BlankLine, Sized, AllDirty, Marked;
      RowSized(cursRow);
      ghost var was := lines[..];
      SetLine(cursRow, cols, maxcols - cols, BLANK);
      OneMarked(was, cursRow, screen[cursRow]);
      cursRow := cursRow + 1;
      if cursRow < scrollBot {
        return;
      }
      ghost var mid := lines[..];
      NewRow();
      RegionMarked(was, mid, lines[..], scrollTop, scrollBot);
    }

    // At the bottom of the region: the view is put back and a blank row is appended.
    method NewRow()
      requires Valid() && Sized()
      modifies this`scrollAbove, this`scrollBelow, this`scrollIndex, this`screen, this`ring, this`cursRow, lines,
        scrollBuf
      ensures Valid() && Sized() && |screen| == old(|screen|) && |ring| == old(|ring|)
      ensures cursRow == scrollBot - 1 && scrollBelow == 0
      ensures lines[..scrollTop] == old(lines[..scrollTop]) && lines[scrollBot..] == old(lines[scrollBot..])
      ensures AllDirty(lines[scrollTop..scrollBot])
      ensures scrollAbove == Capped(old(scrollAbove + scrollBelow) + 1, |ring|)
      ensures Content() == old(Appended(screen))
      ensures screen[..scrollTop] == old(screen)[..scrollTop] && screen[scrollBot..] == old(screen)[scrollBot..]
      ensures FullScreen() && ring != [] ==>
        && Logical() == Recent(old(Logical()) + [Logical()[|Logical()| - 1]], |ring| + |screen|)
        && BlankLine(Logical()[|Logical()| - 1], cols, pen)
    {
      hide History, Recent, CellsSet, ScrollBy, BottomSet, Up, BlankLine, Sized, AllDirty;
      NoScroll();
      cursRow := scrollBot - 1;
      AppendRow();
    }

    method AppendRow()
      requires Valid() && Sized() && scrollBelow == 0
      modifies this`scrollAbove, this`scrollIndex, this`screen, this`ring, lines, scrollBuf
      ensures Valid() && Sized() && |screen| == old(|screen|) && |ring| == old(|ring|)
      ensures lines[..scrollTop] == old(lines[..scrollTop]) && lines[scrollBot..] == old(lines[scrollBot..])
      ensures AllDirty(lines[scrollTop..scrollBot])
      ensures scrollAbove == Capped(old(scrollAbove) + 1, |ring|)
      ensures Content() == Up(old(Content())).(region := BottomSet(Up(old(Content())).region, cols, pen))
      ensures screen[..scrollTop] == old(screen)[..scrollTop] && screen[scrollBot..] == old(screen)[scrollBot..]
      ensures FullScreen() && ring != [] ==>
        && Logical() == Recent(old(Logical()) + [Logical()[|Logical()| - 1]], |ring| + |screen|)
        && BlankLine(Logical()[|Logical()| - 1], cols, pen)
    {
      hide History, Recent, CellsSet, BottomSet, Up, Sized, ScrollMarks, AllDirty;
      ghost var h := Logical();
      ghost var x := if ring == [] then [] else ring[scrollIndex];
      ghost var was, wasRing := lines[..], scrollBuf[..];
      ScrollOne();
      ghost var g := Logical();
      ghost var mid, midRing := lines[..], scrollBuf[..];
      BlankBottom();
      BottomMarked(was, wasRing, mid, midRing, lines[..], scrollTop, scrollBot);
      if FullScreen() && ring != [] {
        LastReplaced(h, x, g, CellsSet(g[|g| - 1], 0, cols, pen), |ring| + |screen|);
        BlankSet(g[|g| - 1], cols, pen);
      }
    }

    method BlankBottom()
      requires Valid() && Sized()
      modifies this`screen, lines
      ensures Valid() && Sized() && |screen| == old(|screen|)
      ensures lines[..] == old(lines[..])[scrollBot - 1 := Row(screen[scrollBot - 1], true)]
      ensures Content() == old(Content()).(region := BottomSet(old(Content()).region, cols, pen))
      ensures screen[..scrollTop] == old(screen)[..scrollTop] && screen[scrollBot..] == old(screen)[scrollBot..]
      ensures FullScreen() ==>
        Logical() == old(Logical())[scrollAbove + scrollBot - 1 :=
          CellsSet(old(Logical())[scrollAbove + scrollBot - 1], 0, cols, pen)]
    {
      hide History, CellsSet, Sized;
      RowSized(scrollBot - 1);
      SetLine(scrollBot - 1, 0, cols, pen);
    }

    // A run of line feeds on the bottom row: of the old history followed by the rows fed,
    // exactly the most recent ones are kept.
    method FeedLines(n: nat) returns (ghost fed: seq<seq<Cell>>)
      requires Valid() && Sized() && FullScreen() && ring != [] && cursRow == scrollBot - 1 && n > 0
      modifies this`scrollAbove, this`scrollBelow, this`scrollIndex, this`screen, this`ring, this`cursRow, lines,
        scrollBuf
      ensures Valid() && Sized() && |screen| == old(|screen|) && |ring| == old(|ring|) && cursRow == scrollBot - 1
      ensures |fed| == n && forall i :: 0 <= i < n ==> BlankLine(fed[i], cols, pen)
      ensures Logical() ==
        Recent(TailCleared(old(Logical()), old(scrollAbove + cursRow), cols, maxcols) + fed, |ring| + |screen|)
    {
      hide Recent, CellsSet, History, Appended, Content, BlankLine, Sized;
      ghost var kept := TailCleared(Logical(), scrollAbove + cursRow, cols, maxcols);
      LineDown();
      fed := [Logical()[|Logical()| - 1]];
      for i := 1 to n
        invariant Valid() && Sized() && FullScreen() && |screen| == old(|screen|) && |ring| == old(|ring|)
        invariant cursRow == scrollBot - 1 && scrollBelow == 0
        invariant |fed| == i && forall j :: 0 <= j < i ==> BlankLine(fed[j], cols, pen)
        invariant Logical() == Recent(kept + fed, |ring| + |screen|)
      {
        ghost var h := Logical();
        LineDown();
        fed := Refed(kept, fed, h, Logical(), |ring| + |screen|, cols, maxcols, pen);
      }
    }

    // One row of the screen has changed, seen in the history.
    twostate lemma RowReplaced(new row: int, new cells: seq<Cell>)
      requires old(Valid()) && Valid() && FullScreen() && 0 <= row < |screen| == |old(screen)|
      requires screen == old(screen)[row := cells] && ring == old(ring) && scrollIndex == old(scrollIndex)
      requires scrollAbove == old(scrollAbove) && scrollBelow == old(scrollBelow)
      requires scrollTop == old(scrollTop) && scrollBot == old(scrollBot)
      ensures Logical() == old(Logical())[scrollAbove + row := cells]
    {
      hide History;
      HistoryUpdate(old(Content()), scrollAbove, scrollBelow, row, cells);
      assert Content() == old(Content()).(region := old(Content()).region[row := cells]);
    }

    // row_set on a row of the screen, seen in the history.
    method SetLine(row: int, start: int, len: int, cell: Cell)
      requires Valid() && 0 <= row < |screen| && InRow(screen[row], start, len)
      modifies this`screen, lines
      ensures old(Sized()) ==> Sized()
      ensures Valid() && screen == old(screen)[row := CellsSet(old(screen)[row], start, len, cell)]
      ensures lines[..] == old(lines[..])[row := Row(screen[row], true)]
      ensures FullScreen() ==>
        Logical() == old(Logical())[scrollAbove + row := CellsSet(old(Logical())[scrollAbove + row], start, len, cell)]
    {
      hide History, CellsSet;
      ghost var st := Content();
      if FullScreen() {
        HistoryUpdate(st, scrollAbove, scrollBelow, row, CellsSet(screen[row], start, len, cell));
        LogicalAt(scrollAbove + row);
      }
      RowSet(row, start, len, cell);
      assert FullScreen() ==> Content() == st.(region := st.region[row := screen[row]]);
    }

    method ScrollOne()
      requires Valid() && scrollBelow == 0
      modifies this`scrollAbove, this`scrollIndex, this`screen, this`ring, lines, scrollBuf
      ensures Valid() && |screen| == old(|screen|) && |ring| == old(|ring|)
      ensures ring != [] ==>
        Logical() == Recent(old(Logical()) + [old(ring)[old(scrollIndex)]], |ring| + (scrollBot - scrollTop))
      ensures Content() == Up(old(Content())) && scrollAbove == Capped(old(scrollAbove) + 1, |ring|)
      ensures screen[..scrollTop] == old(screen)[..scrollTop] && screen[scrollBot..] == old(screen)[scrollBot..]
      ensures old(Sized()) ==> Sized()
      ensures ScrollMarks(old(lines[..]), old(scrollBuf[..]), lines[..], scrollBuf[..], scrollTop, scrollBot, 1)
    {
      hide History, Recent, Sized, ScrollMarks;
      ghost var st := Content();
      if scrollBuf.Length != 0 {
        UpAppends(st, scrollAbove);
      }
      ScrollRows(1);
      assert Content() == Up(UpBy(st, 0));
    }

    // The region and the ring once the view is put back, and the screen that shows then.
    ghost function Rested(): (st: Strip<seq<Cell>>)
      requires Shaped()
      reads this
      ensures st.Valid() && |st.region| == scrollBot - scrollTop && |st.ring| == |ring|
    {
      if scrollBelow == 0 then Content() else ScrollBy(Content(), scrollBelow)
    }

    ghost function ScreenAtRest(): (r: seq<seq<Cell>>)
      requires Shaped()
      reads this
      ensures |r| == |screen|
    {
      screen[..scrollTop] + Rested().region + screen[scrollBot..]
    }

    // Whether a resize to so many rows keeps the cursor's line on the screen: either its row stays, or
    // the region that is scrolled up holds both this row and the last one that stays.
    ghost predicate KeepsLine(rows: int)
      reads this
    {
      cursRow < rows || (scrollTop < rows && cursRow < scrollBot)
    }

    // The cursor's line as it is after a change of width. No other row looks the same.
    ghost predicate OnlyLine(newCols: int)
      requires Shaped() && 0 <= cursRow < |screen|
      reads this
    {
      var line := Widened(ScreenAtRest()[cursRow], cols, maxcols, newCols);
      && (forall i :: 0 <= i < |screen| && i != cursRow ==> Widened(ScreenAtRest()[i], cols, maxcols, newCols) != line)
      && (forall i :: 0 <= i < |ring| ==> Widened(Rested().ring[i], cols, maxcols, newCols) != line)
    }

    // A scroll up by so much only exchanges rows.
    ghost predicate Whole(s: int)
      requires Shaped()
      reads this
    {
      s > 0 && s % (scrollBot - scrollTop) == 0 && ring != []
    }

    // The screen after scrolling the region by s.
    ghost function Shown(s: int): (r: seq<seq<Cell>>)
      requires Shaped()
      reads this
      ensures |r| == |screen|
    {
      screen[..scrollTop] + ScrollBy(Content(), s).region + screen[scrollBot..]
    }

    method Resize(rows: int, newCols: int)
      requires Valid() && scrollBelow == 0 && 0 <= cursRow < |screen| && 0 < rows && 0 < newCols
      modifies this, lines, scrollBuf
      ensures Valid() && FullScreen() && |screen| == rows && |ring| == old(|ring|) && scrollBelow == 0
      ensures fresh(lines) && scrollBuf == old(scrollBuf)
      ensures cols == newCols && maxcols == Max(old(maxcols), newCols) && cursCol == old(cursCol) && pen == old(pen)
      ensures (Content(), cursRow, scrollAbove) == old(AfterResize(rows, newCols))
      ensures Refreshed(old(lines[..]), lines[..], newCols != old(cols), old(Whole(Lifted(cursRow, rows))))
    {
      hide ScrollBy, Resized;
      ghost var above := Capped(scrollAbove + Lifted(cursRow, rows), |ring|);
      var d: int := LiftAndRebuild(rows, newCols);
      if d > 0 {
        Scroll(0 - d);
        assert lines[scrollTop..scrollBot] == lines[..];
        cursRow := cursRow + d;
      } else {
        ShownAtRest();
      }
    }

    // Everything but the backfill, with the number of rows to fill back.
    method LiftAndRebuild(rows: int, newCols: int) returns (d: nat)
      requires Valid() && scrollBelow == 0 && 0 <= cursRow < |screen| && 0 < rows && 0 < newCols
      modifies this`lines, this`screen, this`ring, this`cols, this`maxcols, this`scrollTop, this`scrollBot
      modifies this`scrollAbove, this`scrollIndex, lines, scrollBuf
      ensures Valid() && FullScreen() && |screen| == rows && |ring| == old(|ring|) && fresh(lines)
      ensures cols == newCols && maxcols == Max(old(maxcols), newCols)
      ensures Content() == old(Resized(Lifted(cursRow, rows), rows, newCols))
      ensures scrollAbove == Capped(old(scrollAbove) + Lifted(cursRow, rows), |ring|)
      ensures d == Backfilled(cursRow, old(scrollBot), old(|screen|), rows, scrollAbove)
      ensures Refreshed(old(lines[..]), lines[..], newCols != old(cols), old(Whole(Lifted(cursRow, rows))))
    {
      hide ScrollBy, AllWidened, Fill, CellsOf, ScrollMarks, Refreshed;
      d := 0;
      ghost var was, wasRing, wider, s := lines[..], scrollBuf[..], newCols != cols, Lifted(cursRow, rows);
      ghost var top, bot := scrollTop, scrollBot;
      if lines.Length != rows && cursRow >= rows {
        Lift(cursRow - rows + 1);
      } else {
        ShownAtRest();
        NoMarks(lines[..], scrollBuf[..], top, bot);
      }
      if lines.Length < rows && cursRow >= scrollBot - 1 {
        d := rows - cursRow - 1;
        if d > scrollAbove {
          d := scrollAbove;
        }
      }
      ghost var mid, midRing := lines[..], scrollBuf[..];
      Rebuild(rows, newCols);
      AfterScroll(was, wasRing, mid, midRing, lines[..], top, bot, s, wider, false);
    }

    // cursor_clamp, within the region in relative mode and within the screen otherwise.
    method Clamp(relative: bool)
      requires Coherent() && Shaped() && 0 < cols
      modifies this`cursRow, this`cursCol
      ensures var lo, hi := if relative then scrollTop else 0, if relative then scrollBot else |screen|;
        cursRow == Within(old(cursRow), lo, hi)
      ensures cursCol == Within(old(cursCol), 0, cols)
    {
      var first := if relative then scrollTop else 0;
      var rows := if relative then scrollBot - scrollTop else lines.Length;
      if cursRow < first {
        cursRow := first;
      }
      if cursRow >= first + rows {
        cursRow := first + rows - 1;
      }
      if cursCol < 0 {
        cursCol := 0;
      }
      if cursCol >= cols {
        cursCol := cols - 1;
      }
    }

    // The screen after its region at rest is scrolled up.
    ghost function LiftedScreen(lift: nat): (r: seq<seq<Cell>>)
      requires Shaped()
      reads this
      ensures |r| == |screen|
    {
      screen[..scrollTop] + ScrollBy(Rested(), lift).region + screen[scrollBot..]
    }

    lemma ResizedIs(rows: int, newCols: int)
      requires Shaped() && 0 < rows && 0 < newCols && 0 <= cursRow < |screen|
      ensures var lift := Lifted(cursRow, rows);
        Restretched(LiftedScreen(lift), ScrollBy(Rested(), lift), rows, cols, maxcols, newCols, pen,
          Resized(lift, rows, newCols))
    {
      hide ScrollBy, Rested;
      var lift := Lifted(cursRow, rows);
      var up, to, shown := ScrollBy(Rested(), lift), Resized(lift, rows, newCols), LiftedScreen(lift);
      forall i | 0 <= i < rows && i < |shown| ensures Stretched(shown[i], to.region[i], cols, maxcols, newCols) {
        WidenedIs(shown[i], to.region[i], cols, maxcols, newCols);
      }
      forall i | 0 <= i < |ring| ensures Stretched(up.ring[i], to.ring[i], cols, maxcols, newCols) {
        WidenedIs(up.ring[i], to.ring[i], cols, maxcols, newCols);
      }
    }

    // vt_resize of the active buffer. The view is put back first. The cursor stays on its line of text if
    // KeepsLine, and only then unless another row happens to look the same.
    method VtResize(rows: int, newCols: int)
      returns (ghost lift: nat, ghost back: nat, ghost rebuilt: Strip<seq<Cell>>)
      requires Valid() && 0 <= cursRow < |screen|
      modifies this, lines, scrollBuf
      ensures Valid() && scrollBuf == old(scrollBuf)
      ensures rows <= 0 || newCols <= 0 ==> unchanged(this) && unchanged(lines) && unchanged(scrollBuf)
      ensures 0 < rows && 0 < newCols ==>
        && FullScreen() && |screen| == rows && |ring| == old(|ring|) && scrollBelow == 0 && fresh(lines)
        && cols == newCols && maxcols == (if newCols > old(maxcols) then newCols else old(maxcols)) && pen == old(pen)
        && 0 <= cursRow < rows && cursRow == old(cursRow) - lift + back
        && cursCol == if old(cursCol) < 0 then 0 else if old(cursCol) >= newCols then newCols - 1 else old(cursCol)
      ensures 0 < rows && 0 < newCols ==>
        var above := old(scrollAbove + scrollBelow);
        && lift == (if old(cursRow) >= rows then old(cursRow) - rows + 1 else 0)
        && back == (if old(|screen|) >= rows || old(cursRow) < old(scrollBot) - 1 then 0
                    else if rows - old(cursRow) - 1 > above then above else rows - old(cursRow) - 1)
        && scrollAbove == (if above + lift > |ring| then |ring| else above + lift) - back
        && Restretched(old(LiftedScreen(lift)), old(ScrollBy(Rested(), lift)), rows, old(cols), old(maxcols), newCols,
             pen, rebuilt)
        && Strip(screen, ring, scrollIndex) == ScrollBy(rebuilt, 0 - back)
        && Refreshed(old(lines[..]), lines[..], newCols != old(cols), old(Whole(lift)) || old(Whole(scrollBelow)))
      ensures 0 < rows && 0 < newCols && old(KeepsLine(rows)) ==>
        Stretched(old(ScreenAtRest())[old(cursRow)], screen[cursRow], old(cols), old(maxcols), newCols)
      ensures 0 < rows && 0 < newCols && old(OnlyLine(newCols)) && !old(KeepsLine(rows)) ==>
        !Stretched(old(ScreenAtRest())[old(cursRow)], screen[cursRow], old(cols), old(maxcols), newCols)
    {
      lift, back, rebuilt := 0, 0, Strip(screen, ring, scrollIndex);
      if rows <= 0 || newCols <= 0 {
        return;
      }
      hide ScrollBy, Widened, AllWidened, Fill, AfterResize, KeepsLine, OnlyLine, Rested, ScreenAtRest, Restretched;
      hide Stretched, Resized, LiftedScreen, Refreshed;
      lift, back, rebuilt := Plan(rows, newCols);
      CursorLine(rows, newCols);
      WidenedIs(ScreenAtRest()[cursRow], AfterResize(rows, newCols).0.region[cursRow - lift + back], cols, maxcols,
        newCols);
      PutBackAndResize(rows, newCols);
      WholeScreen();
    }

    method PutBackAndResize(rows: int, newCols: int)
      requires Valid() && 0 <= cursRow < |screen| && 0 < rows && 0 < newCols
      modifies this, lines, scrollBuf
      ensures Valid() && FullScreen() && |screen| == rows && |ring| == old(|ring|) && scrollBelow == 0
      ensures fresh(lines) && scrollBuf == old(scrollBuf) && cursCol == Within(old(cursCol), 0, newCols)
      ensures cols == newCols && maxcols == Max(old(maxcols), newCols) && pen == old(pen)
      ensures var to := old(AfterResize(rows, newCols));
        Content() == to.0 && cursRow == Within(to.1, 0, rows) && scrollAbove == to.2
      ensures Refreshed(old(lines[..]), lines[..], newCols != old(cols),
        old(Whole(Lifted(cursRow, rows))) || old(Whole(scrollBelow)))
    {
      hide ScrollBy, Widened, AllWidened, Fill, AfterResize, ScrollMarks, Refreshed;
      ghost var was, wasRing, s, whole := lines[..], scrollBuf[..], scrollBelow, Whole(Lifted(cursRow, rows));
      ghost var top, bot, wider := scrollTop, scrollBot, newCols != cols;
      NoScroll();
      ghost var mid, midRing := lines[..], scrollBuf[..];
      RestKept(rows, newCols);
      Resize(rows, newCols);
      AfterScroll(was, wasRing, mid, midRing, lines[..], top, bot, s, wider, whole);
      Clamp(false);
    }

    // What AfterResize comes to.
    lemma Plan(rows: int, newCols: int) returns (lift: nat, back: nat, rebuilt: Strip<seq<Cell>>)
      requires Valid() && 0 <= cursRow < |screen| && 0 < rows && 0 < newCols
      ensures var above := scrollAbove + scrollBelow;
        && lift == (if cursRow >= rows then cursRow - rows + 1 else 0)
        && back == (if |screen| >= rows || cursRow < scrollBot - 1 then 0
                    else if rows - cursRow - 1 > above then above else rows - cursRow - 1)
        && Restretched(LiftedScreen(lift), ScrollBy(Rested(), lift), rows, cols, maxcols, newCols, pen, rebuilt)
        && AfterResize(rows, newCols) == (ScrollBy(rebuilt, 0 - back), cursRow + back,
             (if above + lift > |ring| then |ring| else above + lift) - back)
        && 0 <= cursRow - lift + back < rows && Within(cursRow + back, 0, rows) == cursRow - lift + back
        && |AfterResize(rows, newCols).0.region| == rows
    {
      hide Restretched, Resized, ScrollBy;
      ResizedIs(rows, newCols);
      lift := Lifted(cursRow, rows);
      back := Backfilled(cursRow, scrollBot, |screen|, rows, scrollAbove + scrollBelow);
      rebuilt := Resized(lift, rows, newCols);
      CursorLine(rows, newCols);
    }

    lemma WholeScreen()
      requires Shaped() && FullScreen()
      ensures Content().region == screen
    {
    }

    // Putting the view back changes nothing of this.
    twostate lemma RestKept(new rows: int, new newCols: int)
      requires old(Valid()) && Valid() && 0 < rows && |screen| == old(|screen|) && |ring| == old(|ring|)
      requires scrollBelow == 0 && scrollAbove == old(scrollAbove + scrollBelow) && cursRow == old(cursRow)
      requires Content() == ScrollBy(old(Content()), old(scrollBelow))
      requires screen[..scrollTop] == old(screen)[..scrollTop] && screen[scrollBot..] == old(screen)[scrollBot..]
      requires unchanged(`scrollTop) && unchanged(`scrollBot) && unchanged(`cols) && unchanged(`maxcols)
      requires unchanged(`pen)
      requires old(scrollBelow) == 0 ==> screen == old(screen) && ring == old(ring) && scrollIndex == old(scrollIndex)
      ensures AfterResize(rows, newCols) == old(AfterResize(rows, newCols))
    {
      hide ScrollBy, AllWidened, Fill;
    }

    lemma CursorLine(rows: int, newCols: int)
      requires Valid() && 0 <= cursRow < |screen| && 0 < rows && 0 < newCols
      ensures var to := AfterResize(rows, newCols);
        && |to.0.region| == rows
        && (KeepsLine(rows) ==>
              to.0.region[Within(to.1, 0, rows)] == Widened(ScreenAtRest()[cursRow], cols, maxcols, newCols))
        && (OnlyLine(newCols) && !KeepsLine(rows) ==>
              to.0.region[Within(to.1, 0, rows)] != Widened(ScreenAtRest()[cursRow], cols, maxcols, newCols))
    {
      hide Widened, ScrollBy, OnlyLine, Content, Rested, ScreenAtRest;
      if cursRow < rows {
        BackfilledLine(rows, newCols);
      } else if scrollTop < rows && cursRow < scrollBot {
        LiftedLine(rows, newCols);
      } else if OnlyLine(newCols) {
        ChoppedLine(rows, newCols);
      }
    }

    // The region was lifted with the line in it.
    lemma LiftedLine(rows: int, newCols: int)
      requires Shaped() && 0 < rows <= cursRow < |screen| && scrollTop < rows && cursRow < scrollBot
      ensures ScrollBy(Resized(cursRow - rows + 1, rows, newCols), 0).region[rows - 1]
           == Widened(ScreenAtRest()[cursRow], cols, maxcols, newCols)
    {
      hide Widened, Fill, Content, Rested;
      var s, st := cursRow - rows + 1, Rested();
      var u := UpBy(st, s);
      UpByShows(st, s);
      assert u.region[..|st.region| - s][rows - 1 - scrollTop] == st.region[s..][rows - 1 - scrollTop];
      assert (screen[..scrollTop] + u.region + screen[scrollBot..])[rows - 1] == u.region[rows - 1 - scrollTop];
      assert ScreenAtRest()[cursRow] == st.region[cursRow - scrollTop];
    }

    // The line was chopped off, or went into the ring: another one is where the cursor is.
    lemma ChoppedLine(rows: int, newCols: int)
      requires Shaped() && 0 < rows <= cursRow < |screen| && !(scrollTop < rows && cursRow < scrollBot)
      requires OnlyLine(newCols)
      ensures ScrollBy(Resized(cursRow - rows + 1, rows, newCols), 0).region[rows - 1]
           != Widened(ScreenAtRest()[cursRow], cols, maxcols, newCols)
    {
      hide Widened, Fill, Content, Rested;
      var s, st := cursRow - rows + 1, Rested();
      var u := ScrollBy(st, s);
      var shown := screen[..scrollTop] + u.region + screen[scrollBot..];
      if rows <= scrollTop || scrollBot < rows {
        assert shown[rows - 1] == ScreenAtRest()[rows - 1];
      } else {
        var row := u.region[rows - 1 - scrollTop];
        assert shown[rows - 1] == row;
        ScrollPermutes(st, s);
        assert row in Rows(u);
        AnotherRow(row, newCols);
      }
    }

    // A row of the region or the ring is not the cursor's, which lies below the region.
    lemma AnotherRow(row: seq<Cell>, newCols: int)
      requires Shaped() && scrollBot <= cursRow < |screen| && OnlyLine(newCols) && row in Rows(Rested())
      ensures Widened(row, cols, maxcols, newCols) != Widened(ScreenAtRest()[cursRow], cols, maxcols, newCols)
    {
      hide Widened, Content, Rested;
      var st := Rested();
      if row in st.region {
        var i :| 0 <= i < |st.region| && st.region[i] == row;
        assert ScreenAtRest()[scrollTop + i] == row;
      } else {
        assert row in st.ring;
      }
    }

    // Three rows of one column, the region in the first two, and the cursor in the third: made two rows
    // high, the screen has lost the cursor's line.
    lemma LostBelowRegion()
      requires Valid() && ring == [] && scrollBelow == 0 && cols == 1 && maxcols == 1
      requires screen == [[Cell(65, {}, -1, -1)], [Cell(66, {}, -1, -1)], [Cell(67, {}, -1, -1)]]
      requires scrollTop == 0 && scrollBot == 2 && cursRow == 2
      ensures var to := AfterResize(2, 1);
        |to.0.region| == 2 && to.0.region[Within(to.1, 0, 2)] != screen[2]
    {
      SameWidth(screen, 1, 1);
      assert ScreenAtRest() == screen;
      assert forall i :: 0 <= i < 3 ==> Widened(screen[i], 1, 1, 1) == screen[i];
      CursorLine(2, 1);
    }

    // The row stays, and moves down with what fills the screen from above.
    lemma BackfilledLine(rows: int, newCols: int)
      requires Valid() && 0 <= cursRow < |screen| && cursRow < rows
      ensures
        var d := Backfilled(cursRow, scrollBot, |screen|, rows, Capped(scrollAbove + scrollBelow, |ring|));
        cursRow + d < rows &&
        ScrollBy(Resized(0, rows, newCols), 0 - d).region[cursRow + d]
          == Widened(ScreenAtRest()[cursRow], cols, maxcols, newCols)
    {
      hide Widened, Fill, Content, Rested;
      var d := Backfilled(cursRow, scrollBot, |screen|, rows, Capped(scrollAbove + scrollBelow, |ring|));
      var base := Resized(0, rows, newCols);
      assert ScrollBy(Rested(), 0) == Rested();
      assert base.region[cursRow] == Widened(ScreenAtRest()[cursRow], cols, maxcols, newCols);
      LineDownBy(base, d, cursRow);
    }

    lemma LineDownBy(st: Strip<seq<Cell>>, d: nat, i: nat)
      requires st.Valid() && d <= |st.ring| && i + d < |st.region|
      ensures ScrollBy(st, 0 - d).region[i + d] == st.region[i]
    {
      hide UpBy, DownBy;
      if d > 0 {
        DownByMoves(st, d, i);
      } else {
        NoUpBy(st);
      }
    }

    lemma NoUpBy(st: Strip<seq<Cell>>)
      requires st.Valid()
      ensures UpBy(st, 0) == st
    {
    }

    // With the cursor on the last row, shrinking by d rows and growing back at the same width
    // restores the cursor and every line that the screen shows when the view is put back.
    method ShrinkAndGrow(d: nat)
      requires Valid() && FullScreen() && cursRow == |screen| - 1
      requires 0 < d < |screen| && d <= |ring| && 0 <= cursCol < cols <= maxcols
      modifies this, lines, scrollBuf
      ensures Valid() && screen == old(ScreenAtRest()) && cursRow == old(cursRow) && cursCol == old(cursCol)
    {
      hide ScrollBy, Fill, UpBy, DownBy, AfterResize;
      ghost var st := Rested();
      var rows := lines.Length;
      assert ScreenAtRest() == st.region;
      var less := rows - d;
      assert |screen| - less == d;
      Shrink(less);
      ghost var u, fill := UpBy(st, d), Fill(d, maxcols, pen);
      assert Content() == Strip(u.region[..less], u.ring, u.index);
      assert Content() == Strip(screen, ring, scrollIndex);
      assert screen == u.region[..rows - d] && ring == u.ring && scrollIndex == u.index;
      ShrinkThenGrow(st, d, fill);
      Grow(rows);
      assert screen == DownBy(Strip(u.region[..rows - d] + fill, u.ring, u.index), d).region;
    }

    // The second half of it: they come back.
    method Grow(rows: int)
      requires Valid() && FullScreen() && scrollBelow == 0 && cursRow == |screen| - 1
      requires |screen| < rows && rows - |screen| <= scrollAbove && 0 <= cursCol < cols <= maxcols
      modifies this, lines, scrollBuf
      ensures Valid() && |screen| == rows && cursRow == rows - 1 && cursCol == old(cursCol)
      ensures var d := rows - old(|screen|);
        screen == old(DownBy(Strip(screen + Fill(d, maxcols, pen), ring, scrollIndex), d).region)
    {
      hide ScrollBy, Widened, AllWidened, Fill, DownBy, Resized;
      SameWidth(screen, cols, maxcols);
      SameWidth(ring, cols, maxcols);
      ShownAtRest();
      GrownAgain(rows);
      ScrollIs(Resized(0, rows, cols), |screen| - rows);
      PutBackAndResize(rows, cols);
    }

    lemma GrownAgain(rows: int)
      requires Shaped() && FullScreen() && scrollBelow == 0 && |screen| < rows
      requires AllWidened(screen, cols, maxcols, cols) == screen && AllWidened(ring, cols, maxcols, cols) == ring
      requires cols <= maxcols
      ensures Resized(0, rows, cols) == Strip(screen + Fill(rows - |screen|, maxcols, pen), ring, scrollIndex)
    {
      hide ScrollBy, AllWidened, Fill;
      ShownAtRest();
      assert (screen[..scrollTop] + Content().region + screen[scrollBot..])[..|screen|] == screen;
    }

    // The first half of it: the rows that do not fit go into the history.
    method Shrink(rows: int)
      requires Valid() && FullScreen() && cursRow == |screen| - 1
      requires 0 < rows < |screen| && |screen| - rows <= |ring| && 0 <= cursCol < cols <= maxcols
      modifies this, lines, scrollBuf
      ensures Valid() && FullScreen() && |screen| == rows && scrollBelow == 0 && fresh(lines)
      ensures scrollBuf == old(scrollBuf) && cursRow == rows - 1 && cursCol == old(cursCol)
      ensures cols == old(cols) && maxcols == old(maxcols) && pen == old(pen)
      ensures var u := UpBy(old(Rested()), old(|screen|) - rows);
        Content() == Strip(u.region[..rows], u.ring, u.index)
      ensures scrollAbove == Capped(old(scrollAbove + scrollBelow) + old(|screen|) - rows, |ring|)
    {
      hide ScrollBy, Widened, AllWidened, Fill, UpBy;
      ghost var st, d := Rested(), |screen| - rows;
      ghost var lifted := ScrollBy(st, d).region;
      assert screen[..scrollTop] + lifted + screen[scrollBot..] == lifted;
      SameWidth(lifted[..rows], cols, maxcols);
      SameWidth(ScrollBy(st, d).ring, cols, maxcols);
      ScrollIs(st, d);
      NoFill(UpBy(st, d).region[..rows], maxcols, pen);
      NoScrollIs(Resized(d, rows, cols));
      PutBackAndResize(rows, cols);
    }

    lemma ShownAtRest()
      requires Shaped()
      ensures Shown(0) == screen && ScrollBy(Content(), 0) == Content()
    {
    }

    method Lift(s: nat)
      requires Valid() && scrollBelow == 0
      modifies this`scrollAbove, this`scrollIndex, this`screen, this`ring, lines, scrollBuf
      ensures Valid() && |screen| == old(|screen|) && |ring| == old(|ring|)
      ensures screen == old(Shown(s)) && ring == ScrollBy(old(Content()), s).ring
      ensures scrollIndex == ScrollBy(old(Content()), s).index
      ensures scrollAbove == Capped(old(scrollAbove) + s, |ring|)
      ensures ScrollMarks(old(lines[..]), old(scrollBuf[..]), lines[..], scrollBuf[..], scrollTop, scrollBot, s)
    {
      hide ScrollBy, ScrollMarks;
      Scroll(s);
      assert screen == screen[..scrollTop] + screen[scrollTop..scrollBot] + screen[scrollBot..];
    }

    // Reallocation to the new number of rows and columns, with the whole screen as the region.
    method Rebuild(rows: int, newCols: int)
      requires Valid() && scrollBelow == 0 && 0 < rows && 0 < newCols
      modifies this`lines, this`screen, this`ring, this`cols, this`maxcols, this`scrollTop, this`scrollBot, scrollBuf
      ensures Valid() && FullScreen() && |screen| == rows && fresh(lines)
      ensures cols == newCols && maxcols == Max(old(maxcols), newCols)
      ensures screen == AllWidened(old(screen)[..Min(old(|screen|), rows)], old(cols), old(maxcols), newCols)
                        + Fill(rows - Min(old(|screen|), rows), Max(old(maxcols), newCols), pen)
      ensures ring == AllWidened(old(ring), old(cols), old(maxcols), newCols)
      ensures Refreshed(old(lines[..]), lines[..], newCols != old(cols), false)
    {
      hide AllWidened, Fill, CellsOf, Widened, Refreshed;
      var newLines := Reallocate(lines, rows, cols, maxcols, newCols, pen);
      WidenRing(newCols);
      Install(newLines, newCols);
    }

    method Install(newLines: array<Row>, newCols: int)
      requires ring == CellsOf(scrollBuf[..]) && newLines != scrollBuf && newLines.Length > 0 && scrollBelow == 0
      requires (if ring == [] then scrollIndex == 0 else 0 <= scrollIndex < |ring|) && 0 <= scrollAbove <= |ring|
      modifies this`lines, this`screen, this`cols, this`maxcols, this`scrollTop, this`scrollBot
      ensures Valid() && FullScreen() && lines == newLines && screen == CellsOf(newLines[..])
      ensures cols == newCols && maxcols == Max(old(maxcols), newCols)
    {
      hide CellsOf;
      lines := newLines;
      screen := CellsOf(lines[..]);
      maxcols, cols := Max(maxcols, newCols), newCols;
      scrollTop, scrollBot := 0, lines.Length;
    }

    method WidenRing(newCols: int)
      requires Coherent() && 0 < newCols
      modifies this`ring, scrollBuf
      ensures Coherent() && ring == AllWidened(old(ring), cols, maxcols, newCols)
    {
      hide AllWidened, Widened, CellsOf;
      WidenRows(scrollBuf, scrollBuf.Length, cols, maxcols, newCols);
      assert ring[..|ring|] == ring && ring[|ring|..] == [];
      ring := CellsOf(scrollBuf[..]);
    }

    // Where buffer_resize ends up: the rows, the cursor's row and the lines above.
    ghost function AfterResize(rows: int, newCols: int): (to: (Strip<seq<Cell>>, int, int))
      requires Shaped() && 0 < rows
      reads this
    {
      var s := Lifted(cursRow, rows);
      var above := Capped(scrollAbove + scrollBelow + s, |ring|);
      var d := if above < 0 then 0 else Backfilled(cursRow, scrollBot, |screen|, rows, above);
      (ScrollBy(Resized(s, rows, newCols), 0 - d), cursRow + d, above - d)
    }

    // The rows after the lift, the change of width and the chop or fill, before the backfill.
    ghost function Resized(s: int, rows: nat, newCols: int): (st: Strip<seq<Cell>>)
      requires Shaped() && 0 < rows
      reads this
      ensures st.Valid() && |st.region| == rows && |st.ring| == |ring|
    {
      var u := ScrollBy(Rested(), s);
      Strip(AllWidened((screen[..scrollTop] + u.region + screen[scrollBot..])[..Min(|screen|, rows)],
        cols, maxcols, newCols)
              + Fill(rows - Min(|screen|, rows), Max(maxcols, newCols), pen),
            AllWidened(u.ring, cols, maxcols, newCols), u.index)
    }

    // Swaps the top s rows into the ring, then rolls the rows that came out to the bottom.
    method PushTop(s: nat)
      requires Coherent() && Shaped() && s <= scrollBot - scrollTop
      modifies this`scrollIndex, this`screen, this`ring, lines, scrollBuf
      ensures Coherent() && Shaped() && |screen| == old(|screen|) && Content() == UpBy(old(Content()), s)
      ensures screen[..scrollTop] == old(screen)[..scrollTop] && screen[scrollBot..] == old(screen)[scrollBot..]
      ensures ScrollMarks(old(lines[..]), old(scrollBuf[..]), lines[..], scrollBuf[..], scrollTop, scrollBot, s)
    {
      hide Staged, RolledWithin, UpBy, Rolled, ScrollMarks, Exchanged, RollMarks;
      ghost var before, beforeRing := lines[..], scrollBuf[..];
      ghost var st, was := Content(), screen;
      if scrollBuf.Length != 0 {
        PushIntoRing(s);
        StagedRolled(was, scrollTop, scrollBot, UpBy(st, s).region, s);
      } else {
        UpByNoRing(st, s);
        RolledOnScreen(was, scrollTop, scrollBot, s);
      }
      ghost var mid := lines[..];
      Roll(s);
      PushedMarks(before, beforeRing, mid, scrollBuf[..], lines[..], scrollTop, scrollBot, s);
    }

    method PushIntoRing(s: nat)
      requires Coherent() && Shaped() && s <= scrollBot - scrollTop && ring != []
      modifies this`scrollIndex, this`screen, this`ring, lines, scrollBuf
      ensures Coherent() && Shaped()
      ensures Pushed(old(screen), UpBy(old(Content()), s), old(lines[..]), old(scrollBuf[..]), s)
    {
      hide Pushed, Up;
      ghost var was, u := screen, Content();
      ghost var before, beforeRing := lines[..], scrollBuf[..];
      NothingPushed();
      for i := 0 to s
        invariant Coherent() && Shaped() && ring != []
        invariant u.Valid() && u == UpBy(old(Content()), i) && Pushed(was, u, before, beforeRing, i)
      {
        PushNext(i, was, u, before, beforeRing);
        u := Up(u);
      }
    }

    // The region is that of u, rolled by i rows, and the ring is its ring; the rows were exchanged, marks and all.
    ghost predicate Pushed(was: seq<seq<Cell>>, u: Strip<seq<Cell>>, before: seq<Row>, beforeRing: seq<Row>, i: nat)
      requires Shaped() && u.Valid()
      reads this, lines, scrollBuf
    {
      && |was| == |screen| && |u.region| == scrollBot - scrollTop && i <= scrollBot - scrollTop
      && screen == Staged(was, scrollTop, scrollBot, u.region, scrollBot - scrollTop - i)
      && ring == u.ring && scrollIndex == u.index
      && Exchanged(before, beforeRing, lines[..], scrollBuf[..], scrollTop, scrollBot, i)
    }

    lemma NothingPushed()
      requires Coherent() && Shaped()
      ensures Pushed(screen, Content(), lines[..], scrollBuf[..], 0)
    {
      hide Staged;
      StagedWhole(screen, scrollTop, scrollBot);
      ExchangedNone(lines[..], scrollBuf[..], scrollTop, scrollBot);
    }

    method PushNext(i: nat, ghost was: seq<seq<Cell>>, ghost u: Strip<seq<Cell>>, ghost before: seq<Row>,
                    ghost beforeRing: seq<Row>)
      requires Coherent() && Shaped() && ring != [] && i < scrollBot - scrollTop && u.Valid()
      requires Pushed(was, u, before, beforeRing, i)
      modifies this`scrollIndex, this`screen, this`ring, lines, scrollBuf
      ensures Coherent() && Shaped() && ring != [] && Pushed(was, Up(u), before, beforeRing, i + 1)
    {
      hide Staged, Up, CellsOf, Exchanged, Swapped;
      ghost var mid, midRing, j := lines[..], scrollBuf[..], scrollIndex;
      PushStep(was, scrollTop, scrollBot, u, i);
      UpRing(u);
      PushOne(scrollTop + i);
      ExchangedNext(before, beforeRing, mid, midRing, lines[..], scrollBuf[..], scrollTop, scrollBot, i, j);
    }

    method PushOne(row: int)
      requires Coherent() && 0 <= row < |screen| && 0 <= scrollIndex < |ring|
      modifies this`scrollIndex, this`screen, this`ring, lines, scrollBuf
      ensures Coherent() && scrollIndex == Next(old(scrollIndex), |ring|)
      ensures Swapped(old(lines[..]), old(scrollBuf[..]), lines[..], scrollBuf[..], row, old(scrollIndex))
      ensures screen == old(screen)[row := old(ring)[old(scrollIndex)]]
      ensures ring == old(ring)[old(scrollIndex) := old(screen)[row]]
    {
      SwapWithRing(row);
      scrollIndex := scrollIndex + 1;
      if scrollIndex == scrollBuf.Length {
        scrollIndex := 0;
      }
    }

    // Rolls the bottom s rows to the top, then swaps them with the ring, the last one first.
    method PullTop(s: nat)
      requires Coherent() && Shaped() && s <= scrollBot - scrollTop
      modifies this`scrollIndex, this`screen, this`ring, lines, scrollBuf
      ensures Coherent() && Shaped() && |screen| == old(|screen|) && Content() == DownBy(old(Content()), s)
      ensures screen[..scrollTop] == old(screen)[..scrollTop] && screen[scrollBot..] == old(screen)[scrollBot..]
      ensures ScrollMarks(old(lines[..]), old(scrollBuf[..]), lines[..], scrollBuf[..], scrollTop, scrollBot, 0 - s)
    {
      hide Staged, RolledWithin, DownBy, Rolled, ScrollMarks, RollMarks, PullMarks;
      ghost var before, beforeRing := lines[..], scrollBuf[..];
      ghost var st, was := Content(), screen;
      StagedFromWhole(was, scrollTop, scrollBot, s);
      Roll(0 - s);
      ghost var mid := lines[..];
      if scrollBuf.Length != 0 {
        PullFromRing(s, st, was);
        StagedRolled(was, scrollTop, scrollBot, DownBy(st, s).region, 0);
      } else {
        DownByNoRing(st, s);
      }
      PulledMarks(before, beforeRing, mid, lines[..], scrollBuf[..], scrollTop, scrollBot, s);
    }

    method PullFromRing(s: nat, ghost st: Strip<seq<Cell>>, ghost was: seq<seq<Cell>>)
      requires Coherent() && Shaped() && s <= scrollBot - scrollTop && ring != []
      requires st.Valid() && |st.region| == scrollBot - scrollTop && |was| == |screen|
      requires screen == Staged(was, scrollTop, scrollBot, st.region, scrollBot - scrollTop - s)
      requires ring == st.ring && scrollIndex == st.index
      modifies this`scrollIndex, this`screen, this`ring, lines, scrollBuf
      ensures Coherent() && Shaped()
      ensures var d := DownBy(st, s);
        && screen == Staged(was, scrollTop, scrollBot, d.region, scrollBot - scrollTop)
        && ring == d.ring && scrollIndex == d.index
      ensures |screen| == old(|screen|) && |ring| == old(|ring|)
      ensures PullMarks(old(lines[..]), lines[..], scrollTop, s)
    {
      hide Staged, Down, CellsOf;
      ghost var n, d := scrollBot - scrollTop, st;
      for i := s downto 0
        invariant Coherent() && Shaped() && ring != []
        invariant d.Valid() && |d.region| == n && d == DownBy(st, s - i)
        invariant screen == Staged(was, scrollTop, scrollBot, d.region, n - i)
        invariant ring == d.ring && scrollIndex == d.index
        invariant forall j :: scrollTop + i <= j < scrollTop + s ==> lines[j].dirty
        invariant lines[..scrollTop] == old(lines[..scrollTop])
        invariant lines[scrollTop + s..] == old(lines[scrollTop + s..])
      {
        PullStep(was, scrollTop, scrollBot, d, i);
        DownRing(d);
        PullOne(scrollTop + i);
        d := Down(d);
      }
    }

    method PullOne(row: int)
      requires Coherent() && 0 <= row < |screen| && 0 <= scrollIndex < |ring|
      modifies this`scrollIndex, this`screen, this`ring, lines, scrollBuf
      ensures Coherent() && scrollIndex == Prev(old(scrollIndex), |ring|)
      ensures lines[row].dirty && forall i :: 0 <= i < |screen| && i != row ==> lines[i] == old(lines[i])
      ensures screen == old(screen)[row := old(ring)[scrollIndex]]
      ensures ring == old(ring)[scrollIndex := old(screen)[row]]
    {
      scrollIndex := scrollIndex - 1;
      if scrollIndex == -1 {
        scrollIndex := scrollBuf.Length - 1;
      }
      SwapWithRing(row);
      SetDirty(row);
    }

    method Roll(count: int)
      requires Coherent() && Shaped()
      modifies this`screen, lines
      ensures Coherent() && screen == RolledWithin(old(screen), scrollTop, scrollBot, count % (scrollBot - scrollTop))
      ensures RollMarks(old(lines[..]), lines[..], scrollTop, scrollBot, count)
    {
      hide RolledWithin;
      RowRoll(lines, scrollTop, scrollBot, count);
      screen := CellsOf(lines[..]);
    }

    method SwapWithRing(row: int)
      requires Coherent() && 0 <= row < |screen| && 0 <= scrollIndex < |ring|
      modifies this`screen, this`ring, lines, scrollBuf
      ensures Coherent()
      ensures screen == old(screen)[row := old(ring)[scrollIndex]]
      ensures ring == old(ring)[scrollIndex := old(screen)[row]]
      ensures lines[..] == old(lines[..])[row := old(scrollBuf[scrollIndex])]
      ensures scrollBuf[..] == old(scrollBuf[..])[scrollIndex := old(lines[row])]
    {
      var tmp := lines[row];
      lines[row] := scrollBuf[scrollIndex];
      scrollBuf[scrollIndex] := tmp;
      screen := screen[row := ring[scrollIndex]];
      ring := ring[scrollIndex := tmp.cells];
    }

    method SetDirty(row: int)
      requires Coherent() && 0 <= row < |screen|
      modifies lines
      ensures Coherent() && lines[row].dirty && forall i :: 0 <= i < |screen| && i != row ==> lines[i] == old(lines[i])
    {
      SameCells(lines[..], row);
      lines[row] := lines[row].(dirty := true);
    }
  }

  lemma Refed(kept: seq<seq<Cell>>, fed: seq<seq<Cell>>, h: seq<seq<Cell>>, h': seq<seq<Cell>>, most: nat,
              cols: int, maxcols: int, pen: Cell)
    returns (fed': seq<seq<Cell>>)
    requires fed != [] && most > 0 && h' != [] && h != []
    requires forall j :: 0 <= j < |fed| ==> BlankLine(fed[j], cols, pen)
    requires h == Recent(kept + fed, most) && BlankLine(h'[|h'| - 1], cols, pen)
    requires h' == Recent(TailCleared(h, |h| - 1, cols, maxcols) + [h'[|h'| - 1]], most)
    ensures |fed'| == |fed| + 1 && forall j :: 0 <= j < |fed'| ==> BlankLine(fed'[j], cols, pen)
    ensures h' == Recent(kept + fed', most)
  {
    var last, x := |fed| - 1, h'[|h'| - 1];
    var cleared := TailCleared(fed, last, cols, maxcols);
    fed' := cleared + [x];
    assert kept + fed == kept + fed[..last] + [fed[last]];
    assert kept + cleared == kept + fed[..last] + [cleared[last]];
    LastReplaced(kept + fed[..last], fed[last], h, cleared[last], most);
    assert TailCleared(h, |h| - 1, cols, maxcols) == Recent(kept + cleared, most);
    RecentOfRecent(kept + cleared, [x], most);
    assert kept + cleared + [x] == kept + fed';
  }

  lemma BlankSet(line: seq<Cell>, cols: int, pen: Cell)
    ensures BlankLine(CellsSet(line, 0, cols, pen), cols, pen)
  {
  }

  lemma LastReplaced<T>(h: seq<T>, x: T, g: seq<T>, y: T, most: nat)
    requires most > 0 && g == Recent(h + [x], most)
    ensures g != [] && g[|g| - 1 := y] == Recent(h + [y], most)
  {
  }

  // The last row of a history is rewritten, and another one comes after it.
  lemma Rewritten<T>(kept: seq<T>, x: T, h: seq<T>, w: T, y: T, most: nat)
    requires most > 0 && h == Recent(kept + [x], most)
    ensures h != [] && Recent(h[|h| - 1 := w] + [y], most) == Recent(kept + [w] + [y], most)
  {
    hide Recent;
    LastReplaced(kept, x, h, w, most);
    RecentOfRecent(kept + [w], [y], most);
  }

  lemma RollSum<T>(r: seq<T>, s: nat)
    requires s <= |r|
    ensures Rolled(Rolled(r, |r| - s), s) == r
  {
    var a, b := r[..|r| - s], r[|r| - s..];
    assert a + b == r && (b + a)[..s] == b && (b + a)[s..] == a;
  }

  lemma RollBack<T>(r: seq<T>, s: nat)
    requires r != [] && s <= |r|
    ensures Rolled(Rolled(r, |r| - s), s % |r|) == r
    ensures Rolled(r, s % |r|) == Rolled(r, s)
  {
    RollSum(r, s);
    RollWhole(r, s);
    RollWhole(Rolled(r, |r| - s), s);
  }

  lemma RollWhole<T>(r: seq<T>, s: nat)
    requires r != [] && s <= |r|
    ensures Rolled(r, s % |r|) == Rolled(r, s)
  {
    ModRange(0, s, |r|);
    assert Rolled(r, 0) == r && Rolled(r, |r|) == r;
  }

  lemma RollForward<T>(r: seq<T>, s: nat)
    requires r != [] && s <= |r|
    ensures Rolled(r, (0 - s) % |r|) == Rolled(r, |r| - s)
  {
    ModRange(0, 0 - s, |r|);
  }

  // The screen with the region r in it, rolled by k rows.
  ghost function Staged<T>(screen: seq<T>, top: nat, bot: nat, r: seq<T>, k: nat): (now: seq<T>)
    requires top < bot <= |screen| && |r| == bot - top && k <= bot - top
    ensures |now| == |screen|
  {
    screen[..top] + Rolled(r, k) + screen[bot..]
  }

  lemma StagedWhole<T>(screen: seq<T>, top: nat, bot: nat)
    requires top < bot <= |screen|
    ensures Staged(screen, top, bot, screen[top..bot], bot - top) == screen
  {
  }

  lemma StagedFromWhole<T>(screen: seq<T>, top: nat, bot: nat, s: nat)
    requires top < bot <= |screen| && s <= bot - top
    ensures RolledWithin(screen, top, bot, (0 - s) % (bot - top)) ==
      Staged(screen, top, bot, screen[top..bot], bot - top - s)
    ensures var now := Staged(screen, top, bot, screen[top..bot], bot - top - s);
      now[..top] == screen[..top] && now[top..bot] == Rolled(screen[top..bot], bot - top - s)
        && now[bot..] == screen[bot..]
  {
    RollForward(screen[top..bot], s);
  }

  lemma RolledOnScreen<T>(screen: seq<T>, top: nat, bot: nat, s: nat)
    requires top < bot <= |screen| && s <= bot - top
    ensures var now := RolledWithin(screen, top, bot, s % (bot - top));
      now[..top] == screen[..top] && now[top..bot] == Rolled(screen[top..bot], s) && now[bot..] == screen[bot..]
  {
    RollWhole(screen[top..bot], s);
  }

  lemma StagedRolled<T>(screen: seq<T>, top: nat, bot: nat, r: seq<T>, s: nat)
    requires top < bot <= |screen| && |r| == bot - top && s <= bot - top
    ensures var now := RolledWithin(Staged(screen, top, bot, r, bot - top - s), top, bot, s % (bot - top));
      now[..top] == screen[..top] && now[top..bot] == r && now[bot..] == screen[bot..]
    ensures s == 0 ==> var now := Staged(screen, top, bot, r, bot - top);
      now[..top] == screen[..top] && now[top..bot] == r && now[bot..] == screen[bot..]
  {
    hide Rolled;
    RollBack(r, s);
    RollNone(r);
    var k := bot - top - s;
    Middle(screen[..top], Rolled(r, k), screen[bot..]);
    Middle(screen[..top], Rolled(r, bot - top), screen[bot..]);
    Middle(screen[..top], Rolled(Rolled(r, k), s % (bot - top)), screen[bot..]);
  }

  lemma Middle<T>(a: seq<T>, b: seq<T>, c: seq<T>)
    ensures (a + b + c)[..|a|] == a && (a + b + c)[|a|..|a| + |b|] == b && (a + b + c)[|a| + |b|..] == c
  {
  }

  lemma RollNone<T>(r: seq<T>)
    ensures Rolled(r, |r|) == r
  {
  }

  // Swapping row i of the region, rolled by i rows, with the ring is one more step up.
  lemma PushStep<T>(screen: seq<T>, top: nat, bot: nat, u: Strip<T>, i: nat)
    requires top < bot <= |screen| && u.Valid() && |u.region| == bot - top && u.ring != [] && i < bot - top
    ensures var now := Staged(screen, top, bot, u.region, bot - top - i);
      && now[top + i] == u.region[0]
      && now[top + i := u.ring[u.index]] == Staged(screen, top, bot, Up(u).region, bot - top - (i + 1))
  {
  }

  lemma UpRing<T>(u: Strip<T>)
    requires u.Valid() && u.ring != []
    ensures Up(u).index == Next(u.index, |u.ring|) && Up(u).ring == u.ring[u.index := u.region[0]]
  {
  }

  lemma DownRing<T>(d: Strip<T>)
    requires d.Valid() && d.ring != []
    ensures Down(d).index == Prev(d.index, |d.ring|)
    ensures Down(d).ring == d.ring[Prev(d.index, |d.ring|) := d.region[|d.region| - 1]]
  {
  }

  lemma PullStep<T>(screen: seq<T>, top: nat, bot: nat, d: Strip<T>, i: nat)
    requires top < bot <= |screen| && d.Valid() && |d.region| == bot - top && d.ring != [] && i < bot - top
    ensures var now := Staged(screen, top, bot, d.region, bot - top - (i + 1));
      && now[top + i] == d.region[|d.region| - 1]
      && now[top + i := d.ring[Prev(d.index, |d.ring|)]] == Staged(screen, top, bot, Down(d).region, bot - top - i)
  {
    var r, q, k, x := d.region, Down(d).region, bot - top - (i + 1), d.ring[Prev(d.index, |d.ring|)];
    assert r[k..] == r[k..|r| - 1] + [r[|r| - 1]];
    assert q[k + 1..] == r[k..|r| - 1];
    assert q[..k + 1] == [x] + r[..k];
  }

  lemma {:induction false} UpByNoRing<T>(st: Strip<T>, s: nat)
    requires st.Valid() && st.ring == [] && s <= |st.region|
    ensures UpBy(st, s) == Strip(Rolled(st.region, s), [], 0)
  {
    if s > 0 {
      UpByNoRing(st, s - 1);
    }
  }

  lemma {:induction false} DownByNoRing<T>(st: Strip<T>, s: nat)
    requires st.Valid() && st.ring == [] && s <= |st.region|
    ensures DownBy(st, s) == Strip(Rolled(st.region, |st.region| - s), [], 0)
  {
    if s > 0 {
      DownByNoRing(st, s - 1);
    }
  }
}
