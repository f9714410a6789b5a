/// What control sequences do to a screen, as relations between its values before and after
/// (the control functions are those of section 8.3 of ECMA-48).
module ControlEffects {
  import opened Scrollback
  import opened ScreenBuffer

  datatype Screen = Screen(
    rows: seq<seq<Cell>>, ring: seq<seq<Cell>>, index: int, above: int, below: int,
    row: int, col: int, top: int, bot: int, cols: int, maxcols: int,
    pen: Cell, tabs: seq<bool>, savedRow: int, savedCol: int, savedPen: Cell,
    overrun: bool)  // something was written past the end of a row or of the tab stops

  // What every character keeps. The column may be one past the last: the wrap is pending.
  ghost predicate Ok(s: Screen) {
    && 0 <= s.top < s.bot <= |s.rows| && 0 <= s.row < |s.rows| && 0 <= s.col <= s.cols
    && 2 <= s.cols <= s.maxcols == |s.tabs| && Wide(s.rows, s.maxcols) && Wide(s.ring, s.maxcols)
    && (if s.ring == [] then s.index == 0 else 0 <= s.index < |s.ring|)
    && 0 <= s.above && 0 <= s.below && s.above + s.below <= |s.ring|
  }

  // The wrap is pending and the screen was never wider: the cursor is past every row and the tab stops.
  ghost predicate Past(s: Screen) {
    s.col >= s.maxcols
  }

  // The first parameter, or what stands for it.
  ghost function First(params: seq<int>, default: int): int {
    if params == [] then default else params[0]
  }

  // The number of times that something is done.
  ghost function Count(params: seq<int>): (n: nat)
    ensures n > 0
  {
    if params != [] && params[0] > 0 then params[0] else 1
  }

  // The cursor within the margins, those of the region in relative mode.
  ghost function At(s: Screen, row: int, col: int, relative: bool): Screen {
    s.(row := Within(row, if relative then s.top else 0, if relative then s.bot else |s.rows|),
       col := Within(col, 0, s.cols))
  }

  // CUU, CUD, CUF, CUB, CNL, CPL, CHA, HPR, VPA, VPR and HPA.
  ghost function Target(verb: char, n: int, row: int, col: int): (int, int) {
    match verb
    case 'A' => (row - n, col)
    case 'B' | 'e' => (row + n, col)
    case 'C' | 'a' => (row, col + n)
    case 'D' => (row, col - n)
    case 'E' => (row + n, 0)
    case 'F' => (row - n, 0)
    case 'G' | '`' => (row, n - 1)
    case 'd' => (n - 1, col)
    case _ => (row, col)
  }

  ghost function Positioned(s: Screen, params: seq<int>, relative: bool): Screen {
    var first := if relative then s.top else 0;
    At(s, if params == [] then first else first + params[0] - 1, if |params| < 2 then 0 else params[1] - 1, relative)
  }

  // ED: whether the cell in row i and column j goes.
  ghost predicate Erases(row: int, col: int, cols: int, mode: int, i: int, j: int) {
    if mode == 2 then j < cols
    else if mode == 1 then (i < row && j < cols) || (i == row && j <= col)
    else j < cols && (i > row || (i == row && j >= col))
  }

  // EL
  ghost predicate ErasesInLine(s: Screen, mode: int, j: int) {
    if mode == 1 then j <= s.col else j < s.cols && (mode == 2 || j >= s.col)
  }

  // ED erases in the default colours, and what was saved for DECRC is lost.
  ghost predicate DisplayErased(s: Screen, mode: int, t: Screen) {
    && t == s.(rows := t.rows, savedPen := s.pen, overrun := s.overrun || (mode == 1 && Past(s)))
    && |t.rows| == |s.rows|
    && forall i, j :: 0 <= i < |s.rows| && 0 <= j < |s.rows[i]| ==>
         j < |t.rows[i]| && t.rows[i][j] == if Erases(s.row, s.col, s.cols, mode, i, j) then BLANK else s.rows[i][j]
  }

  ghost predicate LineErased(s: Screen, mode: int, t: Screen) {
    && t == s.(rows := t.rows, overrun := s.overrun || (mode == 1 && Past(s))) && |t.rows| == |s.rows|
    && forall i, j :: 0 <= i < |s.rows| && 0 <= j < |s.rows[i]| ==>
         j < |t.rows[i]| && t.rows[i][j] == if i == s.row && ErasesInLine(s, mode, j) then s.pen else s.rows[i][j]
  }

  ghost function Blanks(n: nat, pen: Cell): (r: seq<Cell>)
    ensures |r| == n
  {
    seq(n, i => pen)
  }

  // ICH, DCH and ECH on a row: n cells at col.
  ghost function CellsInserted(row: seq<Cell>, col: nat, n: nat, cols: nat, pen: Cell): (r: seq<Cell>)
    requires col + n <= cols <= |row|
    ensures |r| == |row|
  {
    row[..col] + Blanks(n, pen) + row[col..cols - n] + row[cols..]
  }

  ghost function CellsDeleted(row: seq<Cell>, col: nat, n: nat, cols: nat, pen: Cell): (r: seq<Cell>)
    requires col + n <= cols <= |row|
    ensures |r| == |row|
  {
    row[..col] + row[col + n..cols] + Blanks(n, pen) + row[cols..]
  }

  ghost function CellsErased(row: seq<Cell>, col: nat, n: nat, cols: nat, pen: Cell): (r: seq<Cell>)
    requires col + n <= cols <= |row|
    ensures |r| == |row|
  {
    row[..col] + Blanks(n, pen) + row[col + n..]
  }

  // Deleting what was inserted loses nothing but the cells pushed over the right margin.
  lemma DeleteUndoesInsert(row: seq<Cell>, col: nat, n: nat, cols: nat, pen: Cell)
    requires col + n <= cols <= |row|
    ensures CellsDeleted(CellsInserted(row, col, n, cols, pen), col, n, cols, pen)
         == CellsErased(row, cols - n, n, cols, pen)
  {
  }

  // No more cells than there are up to the right margin.
  ghost function Room(s: Screen, n: nat): nat
    requires 0 <= s.col <= s.cols
  {
    if s.col + n > s.cols then s.cols - s.col else n
  }

  ghost function RowSetTo(s: Screen, cells: seq<Cell>): Screen
    requires 0 <= s.row < |s.rows|
  {
    s.(rows := s.rows[s.row := cells])
  }

  // n blank lines at `from` push the ones below it towards the bottom of the region.
  ghost predicate LinesInserted(s: Screen, from: int, n: nat, t: Screen) {
    && t == s.(rows := t.rows) && |t.rows| == |s.rows| && 0 <= s.bot <= |s.rows|
    && (forall i :: 0 <= i < |s.rows| && !(from <= i < s.bot) ==> t.rows[i] == s.rows[i])
    && (forall i :: 0 <= from <= i < s.bot && i < from + n ==> BlankLine(t.rows[i], s.cols, s.pen))
    && (forall i :: 0 <= from && from + n <= i < s.bot ==> t.rows[i] == s.rows[i - n])
  }

  ghost predicate LinesDeleted(s: Screen, from: int, n: nat, t: Screen) {
    && t == s.(rows := t.rows) && |t.rows| == |s.rows| && 0 <= s.bot <= |s.rows|
    && (forall i :: 0 <= i < |s.rows| && !(from <= i < s.bot) ==> t.rows[i] == s.rows[i])
    && (forall i :: 0 <= from <= i < s.bot && s.bot - n <= i ==> BlankLine(t.rows[i], s.cols, s.pen))
    && (forall i :: 0 <= from <= i < s.bot - n ==> t.rows[i] == s.rows[i + n])
  }

  // The same for whole lines: only those pushed out of the region are lost.
  lemma DeleteUndoesInsertLines(s: Screen, from: int, n: nat, t: Screen, u: Screen)
    requires 0 <= from < s.bot && LinesInserted(s, from, n, t) && LinesDeleted(t, from, n, u)
    ensures forall i :: 0 <= i < |s.rows| && !(s.bot - n <= i < s.bot && from <= i) ==> u.rows[i] == s.rows[i]
  {
    forall i | 0 <= i < |s.rows| && !(s.bot - n <= i < s.bot && from <= i) ensures u.rows[i] == s.rows[i] {
      if from <= i < s.bot {
        assert u.rows[i] == t.rows[i + n];
      }
    }
  }

  // DECSTBM. Any other number of parameters than 0 and 2 is malformed and ignored.
  ghost function RegionSet(s: Screen, params: seq<int>): Screen {
    if |params| == 0 then s.(top := 0, bot := |s.rows|, row := 0, col := 0)
    else if |params| != 2 then s
    else
      var top, bot := Within(params[0] - 1, 0, |s.rows|), Within(params[1], 0, |s.rows| + 1);
      if top < bot then s.(top := top, bot := bot, row := top, col := 0) else s.(row := s.top, col := 0)
  }

  // The number of tab stops in lo..hi.
  ghost function Stops(tabs: seq<bool>, lo: int, hi: int): nat
    requires 0 <= lo && hi <= |tabs|
    decreases hi - lo
  {
    if lo >= hi then 0 else Stops(tabs, lo, hi - 1) + if tabs[hi - 1] then 1 else 0
  }

  // The cursor at the count-th tab stop in the direction of count, or at the margin.
  ghost predicate Tabbed(s: Screen, count: int, t: Screen)
    requires Ok(s)
  {
    && t == s.(col := t.col)
    && (count == 0 ==> t.col == s.col)
    && (count > 0 ==>
          if s.col + 1 < s.cols && Stops(s.tabs, s.col + 1, s.cols) >= count
          then s.col < t.col < s.cols && s.tabs[t.col] && Stops(s.tabs, s.col + 1, t.col + 1) == count
          else t.col == s.cols - 1)
    && (count < 0 ==>
          if Stops(s.tabs, 0, s.col) >= -count
          then 0 <= t.col < s.col && s.tabs[t.col] && Stops(s.tabs, t.col, s.col) == -count
          else t.col == 0)
  }

  // HTS and TBC
  ghost function TabSet(s: Screen, stop: bool): Screen {
    if 0 <= s.col < |s.tabs| then s.(tabs := s.tabs[s.col := stop]) else s.(overrun := true)
  }

  ghost function TabsCleared(s: Screen, mode: int): Screen {
    if mode == 0 then TabSet(s, false)
    else if mode == 3 then s.(tabs := seq(|s.tabs|, i => false))
    else s
  }

  // SU and SD move the view over the history, as far as there is one.
  ghost predicate ViewScrolled(s: Screen, rows: int, t: Screen)
    requires Ok(s)
  {
    var r := if rows < 0 then (if rows < -s.above then -s.above else rows)
             else (if rows > s.below then s.below else rows);
    && t == s.(rows := t.rows, ring := t.ring, index := t.index, above := s.above + r, below := s.below - r)
    && |t.rows| == |s.rows| && t.rows[..s.top] == s.rows[..s.top] && t.rows[s.bot..] == s.rows[s.bot..]
    && t.index >= 0
    && Strip(t.rows[s.top..s.bot], t.ring, t.index) == ScrollBy(Strip(s.rows[s.top..s.bot], s.ring, s.index), r)
  }

  // A line feed: the cursor goes down or, at the bottom of the region, the view is put back, the
  // top line of the region goes to the history and a blank line comes in.
  ghost function LineFed(s: Screen): Screen
    requires Ok(s)
  {
    var rows := TailCleared(s.rows, s.row, s.cols, s.maxcols);
    if s.row + 1 < s.bot then s.(rows := rows, row := s.row + 1)
    else
      var st := Up(ScrollBy(Strip(rows[s.top..s.bot], s.ring, s.index), s.below));
      s.(rows := rows[..s.top] + BottomSet(st.region, s.cols, s.pen) + rows[s.bot..],
        ring := st.ring, index := st.index,
         above := Capped(s.above + s.below + 1, |s.ring|), below := 0, row := s.bot - 1)
  }

  lemma LineFedOk(s: Screen)
    requires Ok(s)
    ensures Ok(LineFed(s)) && |LineFed(s).rows| == |s.rows| && |LineFed(s).ring| == |s.ring|
  {
    hide ScrollBy, Up, CellsSet;
    var rows := TailCleared(s.rows, s.row, s.cols, s.maxcols);
    assert Wide(rows, s.maxcols);
    if s.row + 1 >= s.bot {
      var st := Strip(rows[s.top..s.bot], s.ring, s.index);
      var at := ScrollBy(st, s.below);
      WideScrolled(st, s.below, s.maxcols);
      WideScrolled(at, 1, s.maxcols);
      OneUp(at);
      assert Wide(BottomSet(Up(at).region, s.cols, s.pen), s.maxcols);
    }
  }

  // The row with a character at col.
  ghost function Written(row: seq<Cell>, col: nat, text: int, width: nat, insert: bool, cols: nat, pen: Cell)
    : (r: seq<Cell>)
    requires 1 <= width <= 2 && col + width <= cols <= |row|
    ensures |r| == |row|
  {
    row[..col] + [pen.(text := text)] + (if width == 2 then [pen] else [])
      + (if insert then row[col..cols - width] else row[col + width..cols]) + row[cols..]
  }

  // A character at the cursor, after the wrap if it does not fit; a wide one that does not fit
  // leaves a blank in the last column.
  ghost predicate Printed(s: Screen, text: int, width: nat, insert: bool, t: Screen)
    requires Ok(s) && 1 <= width <= 2
  {
    if s.col + width <= s.cols then
      t == RowSetTo(s, Written(s.rows[s.row], s.col, text, width, insert, s.cols, s.pen)).(col := s.col + width)
    else
      var padded := if s.col < s.cols then RowSetTo(s, CellsSet(s.rows[s.row], s.col, 1, s.pen)) else s;
      Ok(padded.(col := 0)) &&
      var u := LineFed(padded.(col := 0));
      Ok(u) && t == RowSetTo(u, Written(u.rows[u.row], 0, text, width, insert, u.cols, u.pen)).(col := width)
  }

  // SGR: the pen after the parameters from left to right.
  ghost function Colored(pen: Cell, params: seq<int>): Cell
    decreases |params|
  {
    if params == [] then pen
    else if params[0] in {38, 48} && |params| > 2 && params[1] == 5 then
      Colored(if params[0] == 38 then pen.(fg := params[2]) else pen.(bg := params[2]), params[3..])
    else Colored(OneColored(pen, params[0]), params[1..])
  }

  ghost function OneColored(pen: Cell, p: int): Cell {
    if p == 0 then BLANK
    else if p == 1 then pen.(attr := pen.attr + {Bold})
    else if p == 2 then pen.(attr := pen.attr + {Dim})
    else if p == 3 then pen.(attr := pen.attr + {Italic})
    else if p == 4 then pen.(attr := pen.attr + {Underline})
    else if p == 5 then pen.(attr := pen.attr + {Blink})
    else if p == 7 then pen.(attr := pen.attr + {Reverse})
    else if p == 8 then pen.(attr := pen.attr + {Invisible})
    else if p == 22 then pen.(attr := pen.attr - {Bold, Dim})
    else if p == 23 then pen.(attr := pen.attr - {Italic})
    else if p == 24 then pen.(attr := pen.attr - {Underline})
    else if p == 25 then pen.(attr := pen.attr - {Blink})
    else if p == 27 then pen.(attr := pen.attr - {Reverse})
    else if p == 28 then pen.(attr := pen.attr - {Invisible})
    else if 30 <= p <= 37 then pen.(fg := p - 30)
    else if p == 39 then pen.(fg := -1)
    else if 40 <= p <= 47 then pen.(bg := p - 40)
    else if p == 49 then pen.(bg := -1)
    else if 90 <= p <= 97 then pen.(fg := p - 82)
    else if 100 <= p <= 107 then pen.(bg := p - 92)
    else pen
  }

  // Whether a colour selection at the end of the parameters would go on with what follows.
  ghost predicate Whole(params: seq<int>)
    decreases |params|
  {
    params == [] ||
    (if params[0] in {38, 48} && |params| > 1 && params[1] == 5 then |params| > 2 && Whole(params[3..])
     else if params[0] in {38, 48} then |params| > 1 && Whole(params[1..])
     else Whole(params[1..]))
  }

  // Two sequences in a row do what one with both their parameters does.
  lemma {:induction false} ColoredAppend(pen: Cell, a: seq<int>, b: seq<int>)
    requires Whole(a)
    ensures Colored(pen, a + b) == Colored(Colored(pen, a), b)
    decreases |a|
  {
    hide OneColored;
    if a == [] {
      assert a + b == b;
    } else {
      assert (a + b)[1..] == a[1..] + b;
      if a[0] in {38, 48} && |a| > 2 && a[1] == 5 {
        assert (a + b)[3..] == a[3..] + b;
        ColoredAppend(if a[0] == 38 then pen.(fg := a[2]) else pen.(bg := a[2]), a[3..], b);
      } else {
        ColoredAppend(OneColored(pen, a[0]), a[1..], b);
      }
    }
  }

  // The control characters, as far as they move the cursor.
  ghost predicate ControlEffect(s: Screen, wc: int, t: Screen)
    requires Ok(s)
  {
    match wc
    case 8 => t == s.(col := if s.col > 0 then s.col - 1 else 0)
    case 9 => Tabbed(s, 1, t)
    case 10 | 11 | 12 => t == LineFed(s)
    case 13 => t == s.(col := 0)
    case _ => t == s
  }

  // The escape sequences of one character.
  ghost predicate EscapeEffect(s: Screen, c: char, relative: bool, t: Screen)
    requires Ok(s)
  {
    match c
    case '7' => t == s.(savedPen := s.pen, savedRow := s.row, savedCol := s.col)
    case '8' => t == At(s.(pen := s.savedPen), s.savedRow, s.savedCol, relative)
    case 'D' => t == s.(row := Within(s.row + 1, 0, |s.rows|))
    case 'E' => t == if s.row == |s.rows| - 1 then s else s.(row := s.row + 1, col := 0)
    case 'M' => if s.row > s.top then t == s.(row := s.row - 1) else LinesInserted(s, s.top, 1, t)
    case 'H' => t == TabSet(s, true)
    case _ => t == s
  }

  // The control sequences that touch nothing but the active screen.
  ghost predicate Effect(s: Screen, verb: char, params: seq<int>, relative: bool, t: Screen)
    requires Ok(s)
  {
    match verb
      case 'A' | 'B' | 'C' | 'D' | 'E' | 'F' | 'G' | 'e' | 'a' | 'd' | '`' =>
        var to := Target(verb, Count(params), s.row, s.col);
        t == At(s, to.0, to.1, relative)
      case 'H' | 'f' => t == Positioned(s, params, relative)
      case 'J' => DisplayErased(s, First(params, 0), t)
      case 'K' => LineErased(s, First(params, 0), t)
      case '@' => t == RowSetTo(s, CellsInserted(s.rows[s.row], s.col, Room(s, Count(params)), s.cols, s.pen))
      case 'P' => t == RowSetTo(s, CellsDeleted(s.rows[s.row], s.col, Room(s, Count(params)), s.cols, s.pen))
      case 'X' => t == RowSetTo(s, CellsErased(s.rows[s.row], s.col, Room(s, Count(params)), s.cols, s.pen))
      case 'L' => LinesInserted(s, s.row, Count(params), t)
      case 'M' => LinesDeleted(s, s.row, Count(params), t)
      case 'S' => ViewScrolled(s, -First(params, 1), t)
      case 'T' => ViewScrolled(s, First(params, 1), t)
      case 'Z' => Tabbed(s, -First(params, 1), t)
      case 'g' => t == TabsCleared(s, First(params, 0))
      case 'r' => t == RegionSet(s, params)
      case 's' => t == s.(savedRow := s.row, savedCol := s.col)
      case 'u' => t == At(s, s.savedRow, s.savedCol, relative)
      case 'm' => t == s.(pen := if params == [] then BLANK else Colored(s.pen, params))
      case _ => t == s
  }

  // The control sequences that write where there is nothing when the cursor is past the row.
  ghost predicate Strays(verb: char, params: seq<int>) {
    (verb in "JK" && First(params, 0) == 1) || (verb == 'g' && First(params, 0) == 0)
  }

  // Every access is in bounds, except by ED 1, EL 1 and TBC 0 with the cursor past the row.
  lemma OverrunByCsi(s: Screen, verb: char, params: seq<int>, relative: bool, t: Screen)
    requires Ok(s) && Effect(s, verb, params, relative, t)
    ensures t.overrun <==> s.overrun || (Past(s) && Strays(verb, params))
  {
    hide Wide, ScrollBy, Colored, CellsInserted, CellsDeleted, CellsErased, Target;
  }

  // Of the other sequences it is HTS alone.
  lemma OverrunByEscape(s: Screen, c: char, relative: bool, t: Screen)
    requires Ok(s) && EscapeEffect(s, c, relative, t)
    ensures t.overrun <==> s.overrun || (Past(s) && c == 'H')
  {
  }

  // Of the control sequences, ED alone touches what was saved for DECRC.
  lemma SavedByCsi(s: Screen, verb: char, params: seq<int>, relative: bool, t: Screen)
    requires Ok(s) && Effect(s, verb, params, relative, t)
    ensures t.savedPen == if verb == 'J' then s.pen else s.savedPen
    ensures verb == 'J' ==> t.pen == s.pen
  {
    hide Wide, ScrollBy, Colored, CellsInserted, CellsDeleted, CellsErased, Target;
  }

  lemma SavedByEscape(s: Screen, c: char, relative: bool, t: Screen)
    requires Ok(s) && EscapeEffect(s, c, relative, t)
    ensures t.savedPen == if c == '7' then s.pen else s.savedPen
    ensures (c == '7' ==> t.pen == s.pen) && (c == '8' ==> t.pen == s.savedPen)
  {
  }

  lemma CsiInBounds(s: Screen, verb: char, params: seq<int>, relative: bool, t: Screen)
    requires Ok(s) && Effect(s, verb, params, relative, t)
    ensures !Past(s) ==> t.overrun == s.overrun
  {
    hide Effect;
    OverrunByCsi(s, verb, params, relative, t);
  }

  lemma EscapeInBounds(s: Screen, c: char, relative: bool, t: Screen)
    requires Ok(s) && EscapeEffect(s, c, relative, t)
    ensures !Past(s) ==> t.overrun == s.overrun
  {
    hide EscapeEffect;
    OverrunByEscape(s, c, relative, t);
  }

  // What is printed, and the control characters, stay in bounds, and leave the pen as it is.
  lemma NoOverrun(s: Screen, t: Screen, wc: int, text: int, width: nat, insert: bool)
    requires Ok(s) && 1 <= width <= 2 && (Printed(s, text, width, insert, t) || ControlEffect(s, wc, t))
    ensures t.overrun == s.overrun && t.pen == s.pen && t.savedPen == s.savedPen
  {
    hide Ok, Up, ScrollBy, BottomSet, TailCleared, Written;
  }

  lemma ControlStays(s: Screen, wc: int, t: Screen)
    requires Ok(s) && ControlEffect(s, wc, t)
    ensures t.overrun == s.overrun && t.pen == s.pen && t.savedPen == s.savedPen && (Past(t) ==> Past(s))
  {
    hide ControlEffect;
    NoOverrun(s, t, wc, 0, 1, false);
    if Past(t) {
      NotPast(s, wc, t);
    }
  }

  // A control character does not take the cursor past the row.
  lemma NotPast(s: Screen, wc: int, t: Screen)
    requires Ok(s) && ControlEffect(s, wc, t) && Past(t)
    ensures Past(s)
  {
    hide Up, ScrollBy, BottomSet, TailCleared;
  }
}
