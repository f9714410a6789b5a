/// One of the terminal's two screens: the code behind each control sequence, proved against
/// the relation that says what the sequence does.
module TerminalPane {
  import opened Arith
  import opened Scrollback
  import opened ScreenBuffer
  import opened ControlEffects

  // Rows from..to in the colours of the pen.
  ghost function BlankRows(rows: seq<seq<Cell>>, from: int, to: int, cols: int, pen: Cell): (r: seq<seq<Cell>>)
    ensures |r| == |rows|
  {
    seq(|rows|, i requires 0 <= i < |rows| => if from <= i < to then CellsSet(rows[i], 0, cols, pen) else rows[i])
  }

  lemma BlankRowsStep(rows: seq<seq<Cell>>, from: int, i: int, cols: int, pen: Cell)
    requires 0 <= from <= i < |rows|
    ensures var now := BlankRows(rows, from, i, cols, pen);
      now[i := CellsSet(now[i], 0, cols, pen)] == BlankRows(rows, from, i + 1, cols, pen)
  {
  }

  lemma WideBlank(rows: seq<seq<Cell>>, from: int, to: int, i: int, cols: int, pen: Cell, width: int)
    requires Wide(rows, width) && 0 <= i < |rows|
    ensures |BlankRows(rows, from, to, cols, pen)[i]| == width
  {
  }

  // The loops that move the cells of a row.
  method ShiftRight(row: seq<Cell>, col: nat, n: nat, cols: nat) returns (cells: seq<Cell>)
    requires col + n <= cols <= |row|
    ensures cells == row[..col + n] + row[col..cols - n] + row[cols..]
  {
    cells := row;
    for i := cols downto col + n
      invariant |cells| == |row|
      invariant forall j :: 0 <= j < i || cols <= j < |row| ==> cells[j] == row[j]
      invariant forall j :: i <= j < cols ==> cells[j] == row[j - n]
    {
      cells := cells[i := cells[i - n]];
    }
    assert cells[col + n..cols] == row[col..cols - n];
    assert cells == cells[..col + n] + cells[col + n..cols] + cells[cols..];
  }

  method ShiftLeft(row: seq<Cell>, col: nat, n: nat, cols: nat) returns (cells: seq<Cell>)
    requires col + n <= cols <= |row|
    ensures cells == row[..col] + row[col + n..cols] + row[cols - n..]
  {
    cells := row;
    for i := col to cols - n
      invariant |cells| == |row|
      invariant forall j :: 0 <= j < col || i <= j < |row| ==> cells[j] == row[j]
      invariant forall j :: col <= j < i ==> cells[j] == row[j + n]
    {
      cells := cells[i := cells[i + n]];
    }
    assert cells[col..cols - n] == row[col + n..cols];
    assert cells == cells[..col] + cells[col..cols - n] + cells[cols - n..];
  }

  lemma InsertedCells(row: seq<Cell>, col: nat, n: nat, cols: nat, pen: Cell)
    requires col + n <= cols <= |row|
    ensures CellsSet(row[..col + n] + row[col..cols - n] + row[cols..], col, n, pen)
         == CellsInserted(row, col, n, cols, pen)
  {
  }

  lemma DeletedCells(row: seq<Cell>, col: nat, n: nat, cols: nat, pen: Cell)
    requires col + n <= cols <= |row|
    ensures CellsSet(row[..col] + row[col + n..cols] + row[cols - n..], cols - n, n, pen)
         == CellsDeleted(row, col, n, cols, pen)
  {
  }

  lemma ErasedCells(row: seq<Cell>, col: nat, n: nat, cols: nat, pen: Cell)
    requires col + n <= cols <= |row|
    ensures CellsSet(row, col, n, pen) == CellsErased(row, col, n, cols, pen)
  {
  }

  method WriteCells(row: seq<Cell>, col: nat, text: int, width: nat, insert: bool, cols: nat, pen: Cell)
    returns (cells: seq<Cell>)
    requires 1 <= width <= 2 && col + width <= cols <= |row|
    ensures cells == Written(row, col, text, width, insert, cols, pen)
  {
    cells := row;
    if insert {
      cells := ShiftRight(cells, col, width, cols);
    }
    cells := cells[col := pen.(text := text)];
    if width == 2 {
      cells := cells[col + 1 := pen];
    }
  }

  ghost function Texted(row: seq<Cell>, col: nat, text: seq<int>, pen: Cell): (r: seq<Cell>)
    requires col + |text| <= |row|
    ensures |r| == |row|
  {
    row[..col] + seq(|text|, i requires 0 <= i < |text| => pen.(text := text[i])) + row[col + |text|..]
  }

  // A row with text from its start on, as a line feed leaves it.
  ghost function Finished(row: seq<Cell>, text: seq<int>, cols: int, maxcols: int, pen: Cell): (r: seq<Cell>)
    requires |text| <= |row|
    ensures |r| == |row|
  {
    CellsSet(Texted(row, 0, text, pen), cols, maxcols - cols, BLANK)
  }

  // A line of text as the history has it.
  ghost function TextLine(text: seq<int>, cols: int, maxcols: nat, pen: Cell): (r: seq<Cell>)
    ensures |r| == maxcols
  {
    seq(maxcols, j requires 0 <= j < maxcols =>
      if j >= cols then BLANK else if j < |text| then pen.(text := text[j]) else pen)
  }

  ghost function TextLines(lines: seq<seq<int>>, cols: int, maxcols: nat, pen: Cell): (r: seq<seq<Cell>>)
    ensures |r| == |lines|
  {
    seq(|lines|, i requires 0 <= i < |lines| => TextLine(lines[i], cols, maxcols, pen))
  }

  lemma FinishedBlank(row: seq<Cell>, text: seq<int>, cols: int, maxcols: nat, pen: Cell)
    requires |row| == maxcols && |text| <= cols <= maxcols && BlankLine(row, cols, pen)
    ensures Finished(row, text, cols, maxcols, pen) == TextLine(text, cols, maxcols, pen)
  {
  }

  lemma WrittenNext(row: seq<Cell>, col: nat, text: seq<int>, i: nat, cols: nat, pen: Cell)
    requires i < |text| && col + |text| <= cols <= |row|
    ensures Written(Texted(row, col, text[..i], pen), col + i, text[i], 1, false, cols, pen)
         == Texted(row, col, text[..i + 1], pen)
  {
  }

  lemma {:induction false} StopsFrom(tabs: seq<bool>, lo: int, hi: int)
    requires 0 <= lo < hi <= |tabs|
    ensures Stops(tabs, lo, hi) == Stops(tabs, lo + 1, hi) + if tabs[lo] then 1 else 0
    decreases hi - lo
  {
    if lo + 1 < hi {
      StopsFrom(tabs, lo, hi - 1);
    }
  }

  lemma {:induction false} StopsGrow(tabs: seq<bool>, lo: int, mid: int, hi: int)
    requires 0 <= lo && mid <= hi <= |tabs|
    ensures Stops(tabs, lo, mid) <= Stops(tabs, lo, hi)
    decreases hi - mid
  {
    if mid < hi {
      StopsGrow(tabs, lo, mid, hi - 1);
    }
  }

  lemma {:induction false} StopsSplit(tabs: seq<bool>, lo: int, mid: int, hi: int)
    requires 0 <= lo <= mid <= hi <= |tabs|
    ensures Stops(tabs, lo, hi) == Stops(tabs, lo, mid) + Stops(tabs, mid, hi)
    decreases hi - mid
  {
    if mid < hi {
      StopsSplit(tabs, lo, mid, hi - 1);
    }
  }

  // Which row comes to row i when from..to is rotated by count.
  ghost function RolledFrom(i: int, from: int, to: int, count: int): int {
    if !(from <= i < to) then i
    else if i + count < from then i + count + (to - from)
    else if i + count >= to then i + count - (to - from) else i + count
  }

  ghost function Rotated<T>(s: seq<T>, from: nat, to: nat, count: int): (r: seq<T>)
    requires from < to <= |s| && -(to - from) <= count <= to - from
    ensures |r| == |s|
  {
    seq(|s|, i requires 0 <= i < |s| => s[RolledFrom(i, from, to, count)])
  }

  lemma RolledRows<T>(s: seq<T>, from: nat, to: nat, count: int)
    requires from < to <= |s| && -(to - from) <= count <= to - from
    ensures RolledWithin(s, from, to, count % (to - from)) == Rotated(s, from, to, count)
  {
    ModRange(0, count, to - from);
    var r := RolledWithin(s, from, to, count % (to - from));
    forall i | 0 <= i < |s| ensures r[i] == s[RolledFrom(i, from, to, count)] {
    }
  }

  lemma RotatedWide(s: seq<seq<Cell>>, from: nat, to: nat, count: int, width: int)
    requires from < to <= |s| && -(to - from) <= count <= to - from && Wide(s, width)
    ensures Wide(Rotated(s, from, to, count), width)
  {
  }

  // Lines pushed down are a rotation and then n rows blanked; likewise lines pulled up.
  lemma PushedDown(s: Screen, from: nat, n: nat)
    requires from + n <= s.bot <= |s.rows| && 0 < n
    ensures LinesInserted(s, from, n,
      s.(rows := BlankRows(Rotated(s.rows, from, s.bot, 0 - n), from, from + n, s.cols, s.pen)))
  {
    var r := Rotated(s.rows, from, s.bot, 0 - n);
    forall i | 0 <= i < |s.rows| ensures r[i] == s.rows[RolledFrom(i, from, s.bot, 0 - n)] {
    }
  }

  lemma PulledUp(s: Screen, from: nat, n: nat)
    requires from + n <= s.bot <= |s.rows| && 0 < n
    ensures LinesDeleted(s, from, n,
      s.(rows := BlankRows(Rotated(s.rows, from, s.bot, n), s.bot - n, s.bot, s.cols, s.pen)))
  {
    var r := Rotated(s.rows, from, s.bot, n);
    forall i | 0 <= i < |s.rows| ensures r[i] == s.rows[RolledFrom(i, from, s.bot, n)] {
    }
  }

  lemma AllCleared(s: Screen, from: nat, n: nat)
    requires s.bot <= from + n && 0 <= s.bot <= |s.rows|
    ensures LinesInserted(s, from, n, s.(rows := BlankRows(s.rows, from, s.bot, s.cols, s.pen)))
    ensures LinesDeleted(s, from, n, s.(rows := BlankRows(s.rows, from, s.bot, s.cols, s.pen)))
  {
  }

  // One parameter of SGR that does not start the selection of a colour.
  method Recolor(pen: Cell, p: int) returns (now: Cell)
    ensures now == OneColored(pen, p)
  {
    match p {
      case 0 => now := Cell(0, {}, -1, -1);
      case 1 => now := pen.(attr := pen.attr + {Bold});
      case 2 => now := pen.(attr := pen.attr + {Dim});
      case 3 => now := pen.(attr := pen.attr + {Italic});
      case 4 => now := pen.(attr := pen.attr + {Underline});
      case 5 => now := pen.(attr := pen.attr + {Blink});
      case 7 => now := pen.(attr := pen.attr + {Reverse});
      case 8 => now := pen.(attr := pen.attr + {Invisible});
      case 22 => now := pen.(attr := pen.attr - {Bold, Dim});
      case 23 => now := pen.(attr := pen.attr - {Italic});
      case 24 => now := pen.(attr := pen.attr - {Underline});
      case 25 => now := pen.(attr := pen.attr - {Blink});
      case 27 => now := pen.(attr := pen.attr - {Reverse});
      case 28 => now := pen.(attr := pen.attr - {Invisible});
      case 39 => now := pen.(fg := -1);
      case 49 => now := pen.(bg := -1);
      case _ =>
        now := pen;
        if 30 <= p <= 37 {
          now := pen.(fg := p - 30);
        } else if 40 <= p <= 47 {
          now := pen.(bg := p - 40);
        } else if 90 <= p <= 97 {
          now := pen.(fg := p - 82);
        } else if 100 <= p <= 107 {
          now := pen.(bg := p - 92);
        }
    }
  }

  class Pane {
    const b: Buffer
    const tabs: array<bool>
    var savedRow: int
    var savedCol: int
    var savedPen: Cell
    ghost var overrun: bool  // something was written past the end of an array

    ghost function View(): Screen
      reads this, b, tabs
    {
      Screen(b.screen, b.ring, b.scrollIndex, b.scrollAbove, b.scrollBelow, b.cursRow, b.cursCol,
             b.scrollTop, b.scrollBot, b.cols, b.maxcols, b.pen, tabs[..], savedRow, savedCol, savedPen, overrun)
    }

    ghost predicate Valid()
      reads this, b, b.lines, b.scrollBuf, tabs
    {
      b.Valid() && Ok(View())
    }

    constructor (rows: nat, cols: nat, scrollSize: int)
      requires 0 < rows && 2 <= cols
      ensures Valid() && fresh(b) && fresh(b.lines) && fresh(b.scrollBuf) && fresh(tabs)
      ensures |b.screen| == rows && b.cols == b.maxcols == cols && |b.ring| == Max(0, scrollSize)
      ensures b.cursRow == 0 && b.cursCol == 0 && b.pen == BLANK && !overrun
      ensures forall i :: 0 <= i < cols ==> (tabs[i] <==> i % 8 == 0)
      ensures savedRow == 0 && savedCol == 0 && savedPen == Cell(0, {}, 0, 0)
    {
      b := new Buffer(rows, cols, scrollSize);
      tabs := new bool[cols](i => i % 8 == 0);
      savedRow, savedCol, savedPen, overrun := 0, 0, Cell(0, {}, 0, 0), false;
    }

    // Fills whole rows.
    method ClearRows(from: int, to: int)
      requires Valid() && 0 <= from && to <= |b.screen|
      modifies b`screen, b.lines
      ensures Valid()
      ensures View() == old(View()).(rows := BlankRows(old(b.screen), from, to, b.cols, b.pen))
    {
      var i := from;
      assert b.screen == BlankRows(old(b.screen), from, i, b.cols, b.pen);
      while i < to
        invariant from <= i && (i <= to || i == from)
        invariant b.Coherent() && b.screen == BlankRows(old(b.screen), from, i, b.cols, b.pen)
      {
        BlankRowsStep(old(b.screen), from, i, b.cols, b.pen);
        WideBlank(old(b.screen), from, i, i, b.cols, b.pen, b.maxcols);
        b.RowSet(i, 0, b.cols, b.pen);
        i := i + 1;
      }
      assert BlankRows(old(b.screen), from, i, b.cols, b.pen) == BlankRows(old(b.screen), from, to, b.cols, b.pen);
    }

    // ED
    method EraseDisplay(mode: int)
      requires Valid()
      modifies `savedPen, `overrun, b`screen, b`pen, b.lines
      ensures Valid() && DisplayErased(old(View()), mode, View()) && |b.screen| == old(|b.screen|)
    {
      hide Erases;
      savedPen := b.pen;
      b.pen := BLANK;
      EraseCells(mode);
      b.pen := savedPen;
    }

    method EraseCells(mode: int)
      requires Valid()
      modifies `overrun, b`screen, b.lines
      ensures Valid() && |b.screen| == old(|b.screen|)
      ensures overrun == (old(overrun) || (mode == 1 && b.cursCol >= b.maxcols))
      ensures forall i, j :: 0 <= i < |b.screen| && 0 <= j < b.maxcols ==>
        b.screen[i][j] == if Erases(b.cursRow, b.cursCol, b.cols, mode, i, j) then b.pen else old(b.screen)[i][j]
    {
      if mode == 2 {
        ClearRows(0, b.lines.Length);
      } else if mode == 1 {
        ClearPart(0, b.cursCol + 1);
        ClearRows(0, b.cursRow);
      } else {
        ClearPart(b.cursCol, b.cols - b.cursCol);
        ClearRows(b.cursRow + 1, b.lines.Length);
      }
    }

    // row_set on the cursor's row. Past the end of the row, what is written over is not part of this model.
    method ClearPart(start: int, len: int)
      requires Valid() && 0 <= start && start + len <= b.maxcols + 1
      modifies `overrun, b`screen, b.lines
      ensures Valid()
      ensures View() == RowSetTo(old(View()), CellsSet(old(b.screen)[b.cursRow], start, len, b.pen))
        .(overrun := old(overrun) || (len > 0 && start + len > b.maxcols))
    {
      hide CellsSet;
      WideRow();
      if len > 0 && start + len > b.maxcols {
        overrun := true;
        AllTheSame(b.screen[b.cursRow], start, len, b.pen);
        b.RowSet(b.cursRow, start, b.maxcols - start, b.pen);
      } else {
        b.RowSet(b.cursRow, start, len, b.pen);
      }
    }

    lemma AllTheSame(cells: seq<Cell>, start: int, len: int, pen: Cell)
      requires start + len > |cells|
      ensures CellsSet(cells, start, len, pen) == CellsSet(cells, start, |cells| - start, pen)
    {
    }

    // EL
    method EraseLine(mode: int)
      requires Valid()
      modifies `overrun, b`screen, b.lines
      ensures Valid() && LineErased(old(View()), mode, View()) && |b.screen| == old(|b.screen|)
    {
      hide Wide;
      WideRow();
      if mode == 1 {
        ClearPart(0, b.cursCol + 1);
      } else if mode == 2 {
        ClearPart(0, b.cols);
      } else {
        ClearPart(b.cursCol, b.cols - b.cursCol);
      }
    }

    lemma WideRow()
      requires Valid()
      ensures |b.screen[b.cursRow]| == b.maxcols
    {
    }

    method StoreRow(cells: seq<Cell>)
      requires Valid() && |cells| == b.maxcols
      modifies b`screen, b.lines
      ensures Valid() && View() == RowSetTo(old(View()), cells)
    {
      b.StoreCells(b.cursRow, cells);
    }

    // ICH: the cells from the right margin down move to the right.
    method InsertChars(n: nat)
      requires Valid()
      modifies b`screen, b.lines
      ensures Valid()
      ensures View() == RowSetTo(old(View()),
        CellsInserted(old(b.screen)[b.cursRow], b.cursCol, Room(old(View()), n), b.cols, b.pen))
    {
      hide CellsSet, CellsInserted, Wide;
      WideRow();
      var n := if b.cursCol + n > b.cols then b.cols - b.cursCol else n;
      var cells := b.CellsAt(b.cursRow);
      cells := ShiftRight(cells, b.cursCol, n, b.cols);
      InsertedCells(b.screen[b.cursRow], b.cursCol, n, b.cols, b.pen);
      StoreRow(CellsSet(cells, b.cursCol, n, b.pen));
    }

    // DCH: the cells right of the deleted ones move to the left.
    method DeleteChars(n: nat)
      requires Valid()
      modifies b`screen, b.lines
      ensures Valid()
      ensures View() == RowSetTo(old(View()),
        CellsDeleted(old(b.screen)[b.cursRow], b.cursCol, Room(old(View()), n), b.cols, b.pen))
    {
      hide CellsSet, CellsDeleted, Wide;
      WideRow();
      var n := if b.cursCol + n > b.cols then b.cols - b.cursCol else n;
      var cells := b.CellsAt(b.cursRow);
      cells := ShiftLeft(cells, b.cursCol, n, b.cols);
      DeletedCells(b.screen[b.cursRow], b.cursCol, n, b.cols, b.pen);
      StoreRow(CellsSet(cells, b.cols - n, n, b.pen));
    }

    // ECH
    method EraseChars(n: nat)
      requires Valid()
      modifies `overrun, b`screen, b.lines
      ensures Valid()
      ensures View() == RowSetTo(old(View()),
        CellsErased(old(b.screen)[b.cursRow], b.cursCol, Room(old(View()), n), b.cols, b.pen))
    {
      hide CellsSet, CellsErased, Wide;
      WideRow();
      var n := if b.cursCol + n > b.cols then b.cols - b.cursCol else n;
      ErasedCells(b.screen[b.cursRow], b.cursCol, n, b.cols, b.pen);
      ClearPart(b.cursCol, n);
    }

    // The rows from `from` to the bottom of the region, rotated.
    method RollRows(from: nat, count: int)
      requires Valid() && from < b.scrollBot && -(b.scrollBot - from) <= count <= b.scrollBot - from
      modifies b`screen, b.lines
      ensures Valid() && View() == old(View()).(rows := Rotated(old(b.screen), from, b.scrollBot, count))
    {
      hide RolledWithin, Wide, Rotated;
      RolledRows(b.screen, from, b.scrollBot, count);
      RotatedWide(b.screen, from, b.scrollBot, count, b.maxcols);
      RowRoll(b.lines, from, b.scrollBot, count);
      b.screen := CellsOf(b.lines[..]);
    }

    method PushDown(from: nat, n: nat)
      requires Valid() && from + n <= b.scrollBot && 0 < n
      modifies b`screen, b.lines
      ensures Valid() && LinesInserted(old(View()), from, n, View()) && |b.screen| == old(|b.screen|)
    {
      hide BlankRows, Rotated, Wide, LinesInserted;
      PushedDown(View(), from, n);
      RollRows(from, 0 - n);
      ClearRows(from, from + n);
    }

    // IL
    method InsertLines(n: nat)
      requires Valid() && n > 0
      modifies b`screen, b.lines
      ensures Valid() && LinesInserted(old(View()), b.cursRow, n, View()) && |b.screen| == old(|b.screen|)
    {
      hide BlankRows, Wide, LinesInserted;
      if b.cursRow + n >= b.scrollBot {
        AllCleared(View(), b.cursRow, n);
        ClearRows(b.cursRow, b.scrollBot);
      } else {
        PushDown(b.cursRow, n);
      }
    }

    // DL
    method DeleteLines(n: nat)
      requires Valid() && n > 0
      modifies b`screen, b.lines
      ensures Valid() && LinesDeleted(old(View()), b.cursRow, n, View()) && |b.screen| == old(|b.screen|)
    {
      hide BlankRows, Rotated, Wide, LinesDeleted;
      if b.cursRow + n >= b.scrollBot {
        AllCleared(View(), b.cursRow, n);
        ClearRows(b.cursRow, b.scrollBot);
      } else {
        PulledUp(View(), b.cursRow, n);
        RollRows(b.cursRow, n);
        ClearRows(b.scrollBot - n, b.scrollBot);
      }
    }

    // RI: at the top of the region, or above it, the region moves down by a line.
    method ReverseIndex()
      requires Valid()
      modifies b`cursRow, b`screen, b.lines
      ensures Valid()
      ensures if old(b.cursRow) > b.scrollTop then View() == old(View()).(row := old(b.cursRow) - 1)
              else LinesInserted(old(View()), b.scrollTop, 1, View())
      ensures |b.screen| == old(|b.screen|)
    {
      hide Wide, LinesInserted;
      if b.cursRow > b.scrollTop {
        b.cursRow := b.cursRow - 1;
      } else {
        PushDown(b.scrollTop, 1);
      }
    }

    // DECSTBM
    method SetRegion(params: seq<int>)
      requires Valid()
      modifies b`scrollTop, b`scrollBot, b`cursRow, b`cursCol
      ensures Valid() && View() == RegionSet(old(View()), params)
    {
      hide Wide;
      if |params| == 0 {
        b.scrollTop, b.scrollBot := 0, b.lines.Length;
      } else if |params| == 2 {
        var top, bot := params[0] - 1, params[1];
        if top < 0 {
          top := 0;
        }
        if top >= b.lines.Length {
          top := b.lines.Length - 1;
        }
        if bot < 0 {
          bot := 0;
        }
        if bot >= b.lines.Length {
          bot := b.lines.Length;
        }
        if top < bot {
          b.scrollTop, b.scrollBot := top, bot;
        }
      } else {
        return;
      }
      b.cursRow, b.cursCol := b.scrollTop, 0;
    }

    // IND and NEL stop at the bottom of the screen, not of the region.
    method Index()
      requires Valid()
      modifies b`cursRow
      ensures Valid() && View() == old(View()).(row := Within(old(b.cursRow) + 1, 0, |b.screen|))
    {
      hide Wide;
      if b.cursRow < b.lines.Length - 1 {
        b.cursRow := b.cursRow + 1;
      }
    }

    method NextLine()
      requires Valid()
      modifies b`cursRow, b`cursCol
      ensures Valid()
      ensures View() == if old(b.cursRow) == |b.screen| - 1 then old(View())
                        else old(View()).(row := old(b.cursRow) + 1, col := 0)
    {
      hide Wide;
      if b.cursRow < b.lines.Length - 1 {
        b.cursRow := b.cursRow + 1;
        b.cursCol := 0;
      }
    }

    // Sets the cursor and clamps it.
    method GoTo(row: int, col: int, relative: bool)
      requires Valid()
      modifies b`cursRow, b`cursCol
      ensures Valid() && View() == At(old(View()), row, col, relative)
    {
      hide Wide;
      b.cursRow, b.cursCol := row, col;
      b.Clamp(relative);
    }

    method Move(verb: char, n: int, relative: bool)
      requires Valid()
      modifies b`cursRow, b`cursCol
      ensures Valid()
      ensures var to := Target(verb, n, old(b.cursRow), old(b.cursCol)); View() == At(old(View()), to.0, to.1, relative)
    {
      hide Ok;
      var row, col := b.cursRow, b.cursCol;
      match verb {
        case 'A' => row := row - n;
        case 'B' | 'e' => row := row + n;
        case 'C' | 'a' => col := col + n;
        case 'D' => col := col - n;
        case 'E' => row, col := row + n, 0;
        case 'F' => row, col := row - n, 0;
        case 'G' | '`' => col := n - 1;
        case 'd' => row := n - 1;
        case _ =>
      }
      GoTo(row, col, relative);
    }

    // CUP
    method Position(params: seq<int>, relative: bool)
      requires Valid()
      modifies b`cursRow, b`cursCol
      ensures Valid() && View() == Positioned(old(View()), params, relative)
    {
      hide Wide;
      var first := if relative then b.scrollTop else 0;
      if |params| == 0 {
        GoTo(first, 0, relative);
      } else if |params| == 1 {
        GoTo(first + params[0] - 1, 0, relative);
      } else {
        GoTo(first + params[0] - 1, params[1] - 1, relative);
      }
    }

    method SaveCursor()
      requires Valid()
      modifies `savedRow, `savedCol
      ensures Valid() && View() == old(View()).(savedRow := b.cursRow, savedCol := b.cursCol)
    {
      savedRow, savedCol := b.cursRow, b.cursCol;
    }

    // A saved pending wrap comes back as the last column.
    method RestoreCursor(relative: bool)
      requires Valid()
      modifies b`cursRow, b`cursCol
      ensures Valid() && View() == At(old(View()), savedRow, savedCol, relative)
    {
      GoTo(savedRow, savedCol, relative);
    }

    // puttab
    method PutTab(count: int)
      requires Valid()
      modifies b`cursCol
      ensures Valid() && Tabbed(old(View()), count, View())
    {
      if count >= 0 {
        TabForward(count);
      } else {
        TabBackward(-count);
      }
    }

    // The loop of puttab, in either direction.
    method TabForward(count: nat)
      requires Valid()
      modifies b`cursCol
      ensures Valid() && Tabbed(old(View()), count, View())
    {
      hide Wide, Stops;
      FindForward(count);
      assert View() == old(View()).(col := b.cursCol);
    }

    method FindForward(count: nat)
      requires Valid()
      modifies b`cursCol
      ensures 0 <= b.cursCol <= b.cols && (count == 0 ==> b.cursCol == old(b.cursCol))
      ensures count > 0 ==>
        var from := old(b.cursCol) + 1;
        if from < b.cols && Stops(tabs[..], from, b.cols) >= count
        then from <= b.cursCol < b.cols && tabs[b.cursCol] && Stops(tabs[..], from, b.cursCol + 1) == count
        else b.cursCol == b.cols - 1
    {
      hide Wide;
      var left, col := count, b.cursCol + 1;
      ghost var from := col;
      while left != 0
        invariant 0 <= b.cursCol <= b.cols && from <= col && 0 <= left <= count && (col <= b.cols || col == from)
        invariant col <= b.cols ==> left == count - Stops(tabs[..], from, col)
        invariant left == count ==> b.cursCol == old(b.cursCol)
        invariant left < count ==>
          from <= b.cursCol < col && tabs[b.cursCol] && Stops(tabs[..], from, b.cursCol + 1) == count - left
        decreases b.cols - col
      {
        if col >= b.cols {
          b.cursCol := b.cols - 1;
          break;
        }
        if tabs[col] {
          b.cursCol := col;
          left := left - 1;
        }
        col := col + 1;
      }
      if left == 0 && count > 0 {
        StopsGrow(tabs[..], from, b.cursCol + 1, b.cols);
      }
    }

    method TabBackward(count: nat)
      requires Valid() && 0 < count
      modifies b`cursCol
      ensures Valid() && Tabbed(old(View()), 0 - count, View())
    {
      hide Wide;
      var left, col := count, b.cursCol - 1;
      ghost var to := b.cursCol;
      while left != 0
        invariant 0 <= b.cursCol <= b.cols && -1 <= col < to && 0 <= left <= count
        invariant left == count - Stops(tabs[..], col + 1, to)
        invariant left < count ==>
          col < b.cursCol < to && tabs[b.cursCol] && Stops(tabs[..], b.cursCol, to) == count - left
        decreases col
      {
        if col < 0 {
          b.cursCol := 0;
          break;
        }
        StopsFrom(tabs[..], col, to);
        if tabs[col] {
          b.cursCol := col;
          left := left - 1;
        }
        col := col - 1;
      }
      if left == 0 {
        StopsSplit(tabs[..], 0, b.cursCol, to);
      }
    }

    // HTS
    method SetTab()
      requires Valid()
      modifies tabs, `overrun
      ensures Valid() && View() == TabSet(old(View()), true)
    {
      StoreTab(true);
    }

    // A tab stop past the end of the array: what is written over is not part of this model.
    method StoreTab(stop: bool)
      requires Valid()
      modifies tabs, `overrun
      ensures Valid() && View() == TabSet(old(View()), stop)
    {
      hide Wide;
      if b.cursCol >= tabs.Length {
        overrun := true;
      } else {
        tabs[b.cursCol] := stop;
      }
    }

    // TBC
    method ClearTabs(mode: int)
      requires Valid()
      modifies tabs, `overrun
      ensures Valid() && View() == TabsCleared(old(View()), mode)
    {
      hide Wide;
      if mode == 0 {
        StoreTab(false);
      } else if mode == 3 {
        forall i | 0 <= i < tabs.Length {
          tabs[i] := false;
        }
      }
    }

    // SGR
    method SetColors(params: seq<int>)
      requires Valid()
      modifies b`pen
      ensures Valid() && View() == old(View()).(pen := if params == [] then BLANK else Colored(old(b.pen), params))
    {
      hide Wide, OneColored;
      if |params| == 0 {
        b.pen := BLANK;
        return;
      }
      var i := 0;
      while i < |params|
        invariant 0 <= i <= |params| && Colored(b.pen, params[i..]) == Colored(old(b.pen), params)
        invariant Valid()
      {
        var rest := params[i..];
        assert rest[1..] == params[i + 1..];
        if params[i] in {38, 48} && i + 2 < |params| && params[i + 1] == 5 {
          assert rest[3..] == params[i + 3..];
          b.pen := if params[i] == 38 then b.pen.(fg := params[i + 2]) else b.pen.(bg := params[i + 2]);
          i := i + 2;
        } else {
          b.pen := Recolor(b.pen, params[i]);
        }
        i := i + 1;
      }
      assert Colored(b.pen, params[i..]) == b.pen;
    }

    // cursor_line_down
    method LineDown()
      requires Valid()
      modifies b`scrollAbove, b`scrollBelow, b`scrollIndex, b`screen, b`ring, b`cursRow, b.lines, b.scrollBuf
      ensures Valid() && View() == LineFed(old(View())) && |b.screen| == old(|b.screen|) && |b.ring| == old(|b.ring|)
      ensures old(b.cursRow) + 1 >= b.scrollBot ==> b.cursRow == b.scrollBot - 1 && b.scrollBelow == 0
      ensures old(b.cursRow) + 1 >= b.scrollBot && b.FullScreen() && b.ring != [] ==>
        && b.Logical() ==
          Recent(TailCleared(old(b.Logical()), old(b.scrollAbove + b.cursRow), b.cols, b.maxcols)
            + [b.Logical()[|b.Logical()| - 1]], |b.ring| + |b.screen|)
        && BlankLine(b.Logical()[|b.Logical()| - 1], b.cols, b.pen)
    {
      hide ScrollBy, Up, History, Recent, BottomSet, TailCleared, Capped, Ok, Buffer.Sized;
      ghost var s := View();
      InBounds(s);
      LineFedOk(s);
      BufferSized();
      b.LineDown();
      if s.row + 1 >= s.bot {
        Reassembled(b.screen, b.scrollTop, b.scrollBot);
      }
    }

    lemma BufferSized()
      requires Valid()
      ensures b.Sized()
    {
    }

    lemma InBounds(s: Screen)
      requires Ok(s)
      ensures 0 <= s.top < s.bot <= |s.rows| && 0 <= s.row < |s.rows|
    {
    }

    lemma Reassembled<T>(rows: seq<T>, top: int, bot: int)
      requires 0 <= top <= bot <= |rows|
      ensures rows == rows[..top] + rows[top..bot] + rows[bot..]
    {
    }

    // vt_scroll
    method ScrollView(rows: int)
      requires Valid()
      modifies b`scrollAbove, b`scrollBelow, b`scrollIndex, b`screen, b`ring, b.lines, b.scrollBuf
      ensures Valid() && ViewScrolled(old(View()), rows, View()) && b.Logical() == old(b.Logical())
      ensures |b.screen| == old(|b.screen|) && |b.ring| == old(|b.ring|)
    {
      hide ScrollBy, History;
      WideScrolled(b.Content(), b.Clamped(rows), b.maxcols);
      Reassembled(b.screen, b.scrollTop, b.scrollBot);
      b.VtScroll(rows);
      Reassembled(b.screen, b.scrollTop, b.scrollBot);
    }

    // buffer_clear: the default colours everywhere.
    method Clear()
      requires Valid()
      modifies b`screen, b.lines
      ensures Valid() && View() == old(View()).(rows := BlankRows(old(b.screen), 0, |old(b.screen)|, b.cols, BLANK))
    {
      assert BlankRows(old(b.screen), 0, 0, b.cols, BLANK) == b.screen;
      for i := 0 to b.lines.Length
        invariant b.Coherent() && b.screen == BlankRows(old(b.screen), 0, i, b.cols, BLANK)
      {
        BlankRowsStep(old(b.screen), 0, i, b.cols, BLANK);
        WideBlank(old(b.screen), 0, i, i, b.cols, BLANK, b.maxcols);
        b.RowSet(i, 0, b.cols, BLANK);
      }
    }

    method MarkAll()
      requires Valid()
      modifies b.lines
      ensures Valid() && View() == old(View()) && AllDirty(b.lines[..])
    {
      b.MarkAll();
    }

    // The cells of a character, in replace mode or, shifting the rest of the row, in insert mode.
    method Write(text: int, width: nat, insert: bool)
      requires Valid() && 1 <= width <= 2 && b.cursCol + width <= b.cols
      modifies b`screen, b`cursCol, b.lines
      ensures Valid()
      ensures View() == RowSetTo(old(View()),
        Written(old(b.screen)[b.cursRow], old(b.cursCol), text, width, insert, b.cols, b.pen)).(
          col := old(b.cursCol) + width)
    {
      hide Wide, Written;
      WideRow();
      var cells := b.CellsAt(b.cursRow);
      cells := WriteCells(cells, b.cursCol, text, width, insert, b.cols, b.pen);
      StoreRow(cells);
      b.cursCol := b.cursCol + width;
    }

    method Pad()
      requires Valid() && b.cursCol == b.cols - 1
      modifies `overrun, b`screen, b`cursCol, b.lines
      ensures Valid()
      ensures View() == RowSetTo(old(View()), CellsSet(old(b.screen)[b.cursRow], b.cols - 1, 1, b.pen)).(col := b.cols)
    {
      hide Wide, CellsSet;
      ClearPart(b.cursCol, 1);
      b.cursCol := b.cursCol + 1;
    }

    // A printed character (the last branch of put_wc).
    method Print(text: int, width: nat, insert: bool)
      requires Valid() && 1 <= width <= 2
      modifies `overrun, b`scrollAbove, b`scrollBelow, b`scrollIndex, b`screen, b`ring, b`cursRow, b`cursCol, b.lines,
        b.scrollBuf
      ensures Valid() && Printed(old(View()), text, width, insert, View())
      ensures |b.screen| == old(|b.screen|) && |b.ring| == old(|b.ring|)
    {
      hide CellsSet, Written, LineFed, Wide;
      if width == 2 && b.cursCol == b.cols - 1 {
        Pad();
      }
      if b.cursCol >= b.cols {
        b.cursCol := 0;
        LineDown();
      }
      WideRow();
      Write(text, width, insert);
    }

    // Text that fits is read back from the row, and nothing else on the screen changes.
    method PrintText(text: seq<int>)
      requires Valid() && b.cursCol + |text| <= b.cols
      modifies `overrun, b`scrollAbove, b`scrollBelow, b`scrollIndex, b`screen, b`ring, b`cursRow, b`cursCol, b.lines,
        b.scrollBuf
      ensures Valid()
      ensures View() == RowSetTo(old(View()),
        Texted(old(b.screen)[b.cursRow], old(b.cursCol), text, b.pen)).(col := old(b.cursCol) + |text|)
    {
      hide Wide, Written, LineFed;
      ghost var s, was, col := View(), b.screen[b.cursRow], b.cursCol;
      WideRow();
      assert Texted(was, col, text[..0], b.pen) == was && s.rows[s.row := was] == s.rows;
      for i := 0 to |text|
        invariant Valid() && |was| == b.maxcols
        invariant View() == RowSetTo(s, Texted(was, col, text[..i], s.pen)).(col := col + i)
      {
        WrittenNext(was, col, text, i, b.cols, b.pen);
        Print(text[i], 1, false);
      }
      assert text[..|text|] == text;
    }

    lemma Sizes()
      requires Valid()
      ensures 0 <= b.cursRow < |b.screen| && |b.screen[b.cursRow]| == b.maxcols && 2 <= b.cols <= b.maxcols
      ensures b.Valid() && 0 < b.scrollBot <= |b.screen|
    {
    }

    // A line of text, CR and LF, on the bottom row of a region that is the whole screen.
    method PrintLine(text: seq<int>)
      requires Valid() && Bottom() && |text| <= b.cols
      modifies `overrun, b`scrollAbove, b`scrollBelow, b`scrollIndex, b`screen, b`ring, b`cursRow, b`cursCol, b.lines,
        b.scrollBuf
      ensures Valid() && Bottom() && b.scrollBelow == 0 && |b.screen| == old(|b.screen|) && |b.ring| == old(|b.ring|)
      ensures BlankLine(b.screen[b.cursRow], b.cols, b.pen)
      ensures var row := Finished(old(b.screen)[b.cursRow], text, b.cols, b.maxcols, b.pen);
        b.Logical() == Recent(old(b.Logical())[old(b.scrollAbove + b.cursRow) := row]
          + [b.screen[b.cursRow]], |b.ring| + |b.screen|)
    {
      hide Ok, View, LineFed, BlankLine, Recent, Texted, Finished, History, TailCleared;
      Sizes();
      ghost var h, at, row := b.Logical(), b.scrollAbove + b.cursRow, b.screen[b.cursRow];
      PrintHere(text);
      LineDown();
      Cleared(h, at, row, text, b.cols, b.maxcols, b.pen);
      b.LogicalAt(|b.Logical()| - 1);
    }

    lemma Cleared(h: seq<seq<Cell>>, at: nat, row: seq<Cell>, text: seq<int>, cols: int, maxcols: int, pen: Cell)
      requires at < |h| && |text| <= |row|
      ensures TailCleared(h[at := Texted(row, 0, text, pen)], at, cols, maxcols)
           == h[at := Finished(row, text, cols, maxcols, pen)]
    {
      hide CellsSet, Texted;
    }

    // The text and CR.
    method PrintHere(text: seq<int>)
      requires Valid() && Bottom() && |text| <= b.cols
      modifies `overrun, b`scrollAbove, b`scrollBelow, b`scrollIndex, b`screen, b`ring, b`cursRow, b`cursCol, b.lines,
        b.scrollBuf
      ensures Valid() && Bottom() && |b.screen| == old(|b.screen|) && |b.ring| == old(|b.ring|)
      ensures b.scrollAbove == old(b.scrollAbove) && b.cursRow == old(b.cursRow)
      ensures b.Logical() ==
        old(b.Logical())[b.scrollAbove + b.cursRow := Texted(old(b.screen)[b.cursRow], 0, text, b.pen)]
    {
      hide Ok, LineFed, Texted, History;
      Sizes();
      PrintText(text);
      Control(13);
      b.RowReplaced(b.cursRow, Texted(old(b.screen)[b.cursRow], 0, text, b.pen));
    }

    // The cursor is at the start of the bottom row, and all rows scroll into the history.
    ghost predicate Bottom()
      reads b
    {
      b.FullScreen() && b.ring != [] && b.cursRow == b.scrollBot - 1 && b.cursCol == 0
    }

    // The history is the most recent of these rows, and the bottom row comes after them.
    ghost predicate Follows(rows: seq<seq<Cell>>, screen: nat, ring: nat)
      requires Valid()
      reads this, b, b.lines, b.scrollBuf, tabs
    {
      && |b.screen| == screen && |b.ring| == ring && b.scrollBelow == 0
      && BlankLine(b.screen[b.cursRow], b.cols, b.pen)
      && b.Logical() == Recent(rows + [b.screen[b.cursRow]], ring + screen)
    }

    method PrintNext(text: seq<int>, ghost rows: seq<seq<Cell>>)
      requires Valid() && Bottom() && |text| <= b.cols && Follows(rows, |b.screen|, |b.ring|)
      modifies `overrun, b`scrollAbove, b`scrollBelow, b`scrollIndex, b`screen, b`ring, b`cursRow, b`cursCol, b.lines,
        b.scrollBuf
      ensures Valid() && Bottom() && b.maxcols >= 0
      ensures Follows(rows + [TextLine(text, b.cols, b.maxcols, b.pen)], old(|b.screen|), old(|b.ring|))
    {
      hide Ok, BlankLine, Recent, History, Finished, TextLine;
      Sizes();
      ghost var h, x := b.Logical(), b.screen[b.cursRow];
      FinishedBlank(x, text, b.cols, b.maxcols, b.pen);
      PrintLine(text);
      Sizes();
      ghost var w := TextLine(text, b.cols, b.maxcols, b.pen);
      Rewritten(rows, x, h, w, b.screen[b.cursRow], |b.ring| + |b.screen|);
    }

    // Any run of lines of text: the history holds exactly the most recent ones of what it held, with the first
    // line written into its place, and of the other lines.
    method PrintLines(lines: seq<seq<int>>)
      requires Valid() && Bottom() && lines != [] && forall i :: 0 <= i < |lines| ==> |lines[i]| <= b.cols
      modifies `overrun, b`scrollAbove, b`scrollBelow, b`scrollIndex, b`screen, b`ring, b`cursRow, b`cursCol, b.lines,
        b.scrollBuf
      ensures Valid() && Bottom() && b.maxcols >= 0
      ensures
        var first := Finished(old(b.screen)[b.cursRow], lines[0], b.cols, b.maxcols, b.pen);
        Follows(old(b.Logical())[old(b.scrollAbove + b.cursRow) := first]
          + TextLines(lines[1..], b.cols, b.maxcols, b.pen), old(|b.screen|), old(|b.ring|))
    {
      hide Ok, BlankLine, Recent, History, Finished, TextLine, Follows;
      Sizes();
      ghost var rows := b.Logical()[b.scrollAbove + b.cursRow :=
        Finished(b.screen[b.cursRow], lines[0], b.cols, b.maxcols, b.pen)];
      ghost var kept, screen, ring := rows, |b.screen|, |b.ring|;
      PrintLine(lines[0]);
      IsFollowing(rows);
      Sizes();
      assert rows + TextLines(lines[1..1], b.cols, b.maxcols, b.pen) == rows;
      for i := 1 to |lines|
        invariant Valid() && Bottom() && b.maxcols >= 0 && Follows(rows, screen, ring)
        invariant rows == kept + TextLines(lines[1..i], b.cols, b.maxcols, b.pen)
      {
        FollowsIs(rows, screen, ring);
        PrintNext(lines[i], rows);
        assert lines[1..i + 1] == lines[1..i] + [lines[i]];
        rows := rows + [TextLine(lines[i], b.cols, b.maxcols, b.pen)];
        assert rows == kept + TextLines(lines[1..i + 1], b.cols, b.maxcols, b.pen);
      }
      assert lines[1..|lines|] == lines[1..];
    }

    lemma IsFollowing(rows: seq<seq<Cell>>)
      requires Valid() && b.scrollBelow == 0 && BlankLine(b.screen[b.cursRow], b.cols, b.pen)
      requires b.Logical() == Recent(rows + [b.screen[b.cursRow]], |b.ring| + |b.screen|)
      ensures Follows(rows, |b.screen|, |b.ring|)
    {
    }

    lemma FollowsIs(rows: seq<seq<Cell>>, screen: nat, ring: nat)
      requires Valid() && Follows(rows, screen, ring)
      ensures |b.screen| == screen && |b.ring| == ring
    {
    }

    // BS, HT, CR and the line feeds.
    method Control(wc: int)
      requires Valid()
      modifies b.lines, b.scrollBuf, b`scrollAbove, b`scrollBelow, b`scrollIndex, b`screen, b`ring, b`cursRow, b`cursCol
      ensures Valid() && ControlEffect(old(View()), wc, View())
      ensures |b.screen| == old(|b.screen|) && |b.ring| == old(|b.ring|)
    {
      hide LineFed, Tabbed, Wide;
      match wc {
        case 8 =>
          if b.cursCol > 0 {
            b.cursCol := b.cursCol - 1;
          }
        case 9 => PutTab(1);
        case 10 | 11 | 12 => LineDown();
        case 13 => b.cursCol := 0;
        case _ =>
      }
    }

    method SaveAttributes()
      requires Valid()
      modifies `savedPen
      ensures Valid() && View() == old(View()).(savedPen := b.pen)
    {
      savedPen := b.pen;
    }

    method RestoreAttributes()
      requires Valid()
      modifies b`pen
      ensures Valid() && View() == old(View()).(pen := savedPen)
    {
      b.pen := savedPen;
    }

    // DECSC, DECRC, IND, NEL, RI and HTS.
    method Escape(c: char, relative: bool)
      requires Valid()
      modifies this, tabs, b.lines, b`screen, b`cursRow, b`cursCol, b`pen
      ensures Valid() && EscapeEffect(old(View()), c, relative, View()) && |b.screen| == old(|b.screen|)
    {
      hide At, LinesInserted, Wide, TabSet;
      match c {
        case '7' =>
          SaveAttributes();
          SaveCursor();
        case '8' =>
          RestoreAttributes();
          RestoreCursor(relative);
        case 'D' => Index();
        case 'E' => NextLine();
        case 'M' => ReverseIndex();
        case 'H' => SetTab();
        case _ =>
      }
    }

    // A control sequence that touches nothing but this screen.
    method Csi(verb: char, params: seq<int>, relative: bool)
      requires Valid()
      modifies this, tabs, b.lines, b.scrollBuf, b`scrollAbove, b`scrollBelow, b`scrollIndex, b`screen, b`ring,
        b`cursRow, b`cursCol, b`scrollTop, b`scrollBot, b`pen
      ensures Valid() && Effect(old(View()), verb, params, relative, View())
      ensures |b.screen| == old(|b.screen|) && |b.ring| == old(|b.ring|)
    {
      hide Effect, Ok;
      if verb in "JK@PX" {
        CsiCells(verb, params, relative);
      } else if verb in "LM" {
        CsiLines(verb, params, relative);
      } else if verb in "ST" {
        CsiView(verb, params, relative);
      } else if verb in "ABCDEFGead`" {
        CsiMove(verb, params, relative);
      } else {
        CsiCursor(verb, params, relative);
      }
    }

    method CsiCells(verb: char, params: seq<int>, ghost relative: bool)
      requires Valid() && verb in "JK@PX"
      modifies `savedPen, `overrun, b.lines, b`screen, b`pen
      ensures Valid() && |b.screen| == old(|b.screen|) && Effect(old(View()), verb, params, relative, View())
    {
      hide Ok, DisplayErased, LineErased, CellsInserted, CellsDeleted, CellsErased;
      var n := if |params| > 0 && params[0] > 0 then params[0] else 1;
      match verb {
        case 'J' => EraseDisplay(if |params| > 0 then params[0] else 0);
        case 'K' => EraseLine(if |params| > 0 then params[0] else 0);
        case '@' => InsertChars(n);
        case 'P' => DeleteChars(n);
        case 'X' => EraseChars(n);
      }
    }

    method CsiLines(verb: char, params: seq<int>, ghost relative: bool)
      requires Valid() && verb in "LM"
      modifies b.lines, b`screen
      ensures Valid() && |b.screen| == old(|b.screen|) && Effect(old(View()), verb, params, relative, View())
    {
      hide Ok, LinesInserted, LinesDeleted;
      var n := if |params| > 0 && params[0] > 0 then params[0] else 1;
      if verb == 'L' {
        InsertLines(n);
      } else {
        DeleteLines(n);
      }
    }

    method CsiView(verb: char, params: seq<int>, ghost relative: bool)
      requires Valid() && verb in "ST"
      modifies b.lines, b.scrollBuf, b`scrollAbove, b`scrollBelow, b`scrollIndex, b`screen, b`ring
      ensures Valid() && |b.screen| == old(|b.screen|) && |b.ring| == old(|b.ring|)
      ensures Effect(old(View()), verb, params, relative, View())
    {
      hide Ok, ViewScrolled;
      if verb == 'S' {
        ScrollView(if |params| > 0 then 0 - params[0] else 0 - 1);
      } else {
        ScrollView(if |params| > 0 then params[0] else 1);
      }
    }

    method CsiMove(verb: char, params: seq<int>, relative: bool)
      requires Valid() && verb in "ABCDEFGead`"
      modifies b`cursRow, b`cursCol
      ensures Valid() && Effect(old(View()), verb, params, relative, View())
    {
      hide Ok, At, Target;
      Move(verb, if |params| > 0 && params[0] > 0 then params[0] else 1, relative);
    }

    method CsiCursor(verb: char, params: seq<int>, relative: bool)
      requires Valid() && verb !in "JK@PX" && verb !in "LM" && verb !in "ST" && verb !in "ABCDEFGead`"
      modifies `savedRow, `savedCol, `overrun, tabs, b`cursRow, b`cursCol, b`scrollTop, b`scrollBot, b`pen
      ensures Valid() && Effect(old(View()), verb, params, relative, View())
    {
      hide Ok, At, Positioned, RegionSet, TabsCleared, Tabbed, Colored;
      match verb {
        case 'H' | 'f' => Position(params, relative);
        case 'Z' => PutTab(if |params| > 0 then 0 - params[0] else 0 - 1);
        case 'g' => ClearTabs(if |params| > 0 then params[0] else 0);
        case 'r' => SetRegion(params);
        case 's' => SaveCursor();
        case 'u' => RestoreCursor(relative);
        case 'm' => SetColors(params);
        case _ =>
      }
    }

    // A line of full width and then a tab stop: it is set past the end of the array.
    method FullLineAndTabStop() returns (p: Pane)
      ensures p.Valid() && p.overrun
    {
      hide Wide, Texted;
      p := new Pane(1, 2, 0);
      p.PrintText([65, 66]);
      p.Escape('H', false);
    }
  }
}
