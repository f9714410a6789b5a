/// The interpreter of the terminal's character stream: two screens, the modes, and the escape
/// sequence being collected.
module Terminal {
  import opened ScreenBuffer
  import opened ControlEffects
  import opened TerminalPane
  import CsiParams

  datatype Event = Bell | Osc(text: string) | CursorReport(row: int, col: int)

  // What attributes_save stored: on which screen, and the pen and the character set.
  datatype Save = Save(alternate: bool, pen: Cell, graph: bool)

  datatype Modes = Modes(insert: bool, cursorHidden: bool, cursorKeys: bool, relative: bool, mouse: bool)

  // Whether G0 and G1 are the line drawing set, whether that one is in use, and whether it was when it was saved.
  datatype Charsets = Charsets(g0: bool, g1: bool, graph: bool, saved: bool)

  datatype State = State(onAlternate: bool, normal: Screen, alternate: Screen, modes: Modes, sets: Charsets,
                         events: seq<Event>, saves: seq<Save>)

  // With the escape sequence that is being collected, if one is.
  datatype Machine = Machine(state: State, escaped: bool, text: string)

  const BEL := 7 as char
  const ESC := 27 as char

  ghost predicate IsControl(wc: int) {
    0 <= wc < 32 || 128 <= wc < 160
  }

  ghost predicate IsEnder(c: char) {
    'a' <= c <= 'z' || 'A' <= c <= 'Z' || c == '@' || c == '`'
  }

  // Up to the first NUL.
  ghost function Text(s: string): (t: string)
    ensures |t| <= |s| && t == s[..|t|] && '\0' !in t && (|t| < |s| ==> s[|t|] == '\0')
  {
    if s == [] || s[0] == '\0' then [] else [s[0]] + Text(s[1..])
  }

  lemma {:induction false} TextAt(s: string, k: nat)
    requires k < |s| && s[k] != '\0' && k <= |Text(s)|
    ensures k < |Text(s)| && Text(s)[k] == s[k]
  {
  }

  lemma TextEnds(s: string, k: nat)
    requires k <= |Text(s)| && (k < |s| ==> s[k] == '\0')
    ensures Text(s)[..k] == Text(s)
  {
    assert forall i :: 0 <= i < |Text(s)| ==> Text(s)[i] == s[i] && Text(s)[i] != '\0';
  }

  lemma {:induction false} WholeText(s: string)
    requires '\0' !in s
    ensures Text(s) == s
  {
    if s != [] {
      WholeText(s[1..]);
    }
  }

  // What characters and sequences do, as relations.

  ghost function Here(s: State): Screen {
    if s.onAlternate then s.alternate else s.normal
  }

  ghost function There(s: State): Screen {
    if s.onAlternate then s.normal else s.alternate
  }

  ghost function Put(s: State, t: Screen): State {
    if s.onAlternate then s.(alternate := t) else s.(normal := t)
  }

  ghost predicate ControlDone(was: State, wc: int, now: State) {
    && Ok(Here(was)) && ControlEffect(Here(was), wc, Here(now))
    && now == Put(was, Here(now)).(
      sets := was.sets.(graph := if wc == 14 then was.sets.g1 else if wc == 15 then was.sets.g0 else was.sets.graph),
      events := was.events + if wc == 7 then [Bell] else [])
  }

  // A printed character; in graphics mode it may stand for another one. Widths below 1 count as 1.
  ghost predicate PrintDone(was: State, wc: int, width: int -> int, glyph: int -> int, now: State) {
    var text := if was.sets.graph && 0x41 <= wc <= 0x7e && glyph(wc) != 0 then glyph(wc) else wc;
    var columns := if was.sets.graph || width(wc) < 1 then 1 else width(wc);
    && Ok(Here(was)) && columns <= 2 && Printed(Here(was), text, columns, was.modes.insert, Here(now))
    && now == Put(was, Here(now))
  }

  // attributes_save, as far as it concerns no screen.
  ghost function Remembered(s: State): State {
    s.(sets := s.sets.(saved := s.sets.graph),
       saves := s.saves + [Save(s.onAlternate, Here(s).pen, s.sets.graph)])
  }

  // Save or restore the cursor.
  ghost function CursorKept(s: Screen, save: bool, relative: bool): Screen {
    if save then s.(savedRow := s.row, savedCol := s.col) else At(s, s.savedRow, s.savedCol, relative)
  }

  // The alternate screen is cleared when it is left, and also when it was not active.
  ghost function Switched(s: State, on: bool): State {
    s.(onAlternate := on,
       alternate := if on then s.alternate
         else s.alternate.(rows := BlankRows(s.alternate.rows, 0, |s.alternate.rows|, s.alternate.cols, BLANK)))
  }

  // One private mode. 1049 saves the cursor of the screen that it switches to, not of the one that it leaves.
  ghost function PrivateOne(s: State, param: int, on: bool): State {
    match param
    case 1 => s.(modes := s.modes.(cursorKeys := on))
    case 6 => s.(modes := s.modes.(relative := on))
    case 25 => s.(modes := s.modes.(cursorHidden := !on))
    case 1000 => s.(modes := s.modes.(mouse := on))
    case 47 | 1047 => Switched(s, on)
    case 1048 => Put(s, CursorKept(Here(s), on, s.modes.relative))
    case 1049 =>
      var t := Switched(s, on);
      Put(t, CursorKept(Here(t), on, t.modes.relative))
    case _ => s
  }

  ghost function PrivateAll(s: State, params: seq<int>, on: bool): State {
    if params == [] then s
    else PrivateOne(PrivateAll(s, params[..|params| - 1], on), params[|params| - 1], on)
  }

  // A control sequence, once its parameters are read. ED saves the attributes where DECSC does.
  ghost predicate CsiActed(was: State, private: bool, verb: char, scan: CsiParams.Scan, now: State) {
    match scan
    case TooLong => now == was
    case Params(values) =>
      if private then now == if verb in "hl" then PrivateAll(was, values, verb == 'h') else was
      else if verb in "hl" then now == if 4 in values then was.(modes := was.modes.(insert := verb == 'h')) else was
      else if verb == 'n' then
        now == if values == [6] then was.(events := was.events + [CursorReport(Here(was).row, Here(was).col)]) else was
      else
        && Ok(Here(was)) && Effect(Here(was), verb, values, was.modes.relative, Here(now))
        && now == Put(if verb == 'J' then Remembered(was) else was, Here(now))
  }

  // Control characters within a sequence are carried out while its parameters are read, as far as they are read.
  ghost predicate Ran(was: State, text: string, now: State) {
    if text == [] then now == was
    else
      var before, c := text[..|text| - 1], text[|text| - 1];
      exists mid :: Ran(was, before, mid) &&
        if CsiParams.Scanned(before).Params? && IsControl(c as int) then ControlDone(mid, c as int, now) else now == mid
  }

  // What is read of a control sequence.
  ghost function Body(s: string): string
    requires |s| >= 2
  {
    Text(if s[1] == '?' then s[2..] else s[1..])
  }

  ghost predicate CsiDone(was: State, s: string, now: State)
    requires |s| >= 2
  {
    exists mid :: Ran(was, Body(s), mid) &&
      CsiActed(mid, s[1] == '?', s[|s| - 1], CsiParams.Scanned(Body(s)), now)
  }

  ghost predicate CommandDone(was: State, s: string, now: State)
    requires |s| >= 3 || (|s| == 2 && s[1] as int == 7)
  {
    now == was.(events := was.events + [Osc(s[1..if s[|s| - 1] as int == 7 then |s| - 1 else |s| - 2])])
  }

  // DECALN erases the display.
  ghost predicate AlignDone(was: State, now: State) {
    Ok(Here(was)) && DisplayErased(Here(was), 2, Here(now)) && now == Put(Remembered(was), Here(now))
  }

  // DECSC, DECRC, IND, NEL, RI and HTS.
  ghost predicate EscapeDone(was: State, c: char, now: State) {
    && Ok(Here(was)) && EscapeEffect(Here(was), c, was.modes.relative, Here(now))
    && now == Put(
      if c == '7' then Remembered(was)
      else if c == '8' then was.(sets := was.sets.(graph := was.sets.saved))
      else was, Here(now))
  }

  // Whether a sequence, without its ESC, is all there. One that starts with NUL never is.
  ghost predicate Complete(s: string)
    requires s != []
  {
    var last := s[|s| - 1];
    match s[0]
    case '[' => IsEnder(last)
    case ']' => last as int == 7 || (last == '\\' && |s| >= 2 && s[|s| - 2] as int == 27)
    case '#' | '(' | ')' => |s| == 2
    case c => c != '\0'
  }

  ghost predicate SequenceDone(was: State, s: string, now: State)
    requires s != [] && Complete(s)
  {
    match s[0]
    case '[' => CsiDone(was, s, now)
    case ']' => CommandDone(was, s, now)
    case '#' => if s[1] == '8' then AlignDone(was, now) else now == was
    case '(' => now == was.(sets := was.sets.(g0 := s[1] == '0', graph := s[1] == '0'))
    case ')' => now == was.(sets := was.sets.(g1 := s[1] == '0', graph := was.sets.g0))
    case c => if c in "78DEMH" then EscapeDone(was, c, now) else now == was
  }

  // What becomes of a sequence with its latest character.
  ghost predicate Tried(was: State, s: string, size: nat, now: Machine)
    requires s != []
  {
    if Complete(s) then SequenceDone(was, s, now.state) && !now.escaped && now.text == []
    else now == if |s| + 1 >= size && s[0] != '\0' then Machine(was, false, []) else Machine(was, true, s)
  }

  lemma NulWaits(s: string)
    requires s != []
    ensures s[0] == '\0' ==> !Complete(s)
  {
  }

  // One character of the stream. The sequence has to fit into a buffer of this size.
  ghost predicate Steps(was: Machine, wc: int, size: nat, width: int -> int, glyph: int -> int, now: Machine) {
    var s := was.text + [(wc % 256) as char];
    if !was.escaped then
      && now.text == []
      && (if IsControl(wc) then ControlDone(was.state, wc, now.state) && now.escaped == (wc == 27)
          else PrintDone(was.state, wc, width, glyph, now.state) && !now.escaped)
    else if |was.text| + 1 >= size then now == Machine(was.state, false, [])
    else Tried(was.state, s, size, now)
  }

  lemma ControlIsSilent(scan: CsiParams.Scan, c: char)
    requires IsControl(c as int)
    ensures CsiParams.Step(scan, c) == scan
  {
  }

  lemma Silent(s: State)
    requires Ok(Here(s))
    ensures ControlDone(s, 27, s)
  {
  }

  lemma NothingRan(was: State, text: string)
    ensures Ran(was, text[..0], was)
  {
  }

  lemma RanNext(was: State, text: string, k: nat, mid: State, now: State)
    requires k < |text| && Ran(was, text[..k], mid) && CsiParams.Scanned(text[..k]).Params?
    requires if IsControl(text[k] as int) then ControlDone(mid, text[k] as int, now) else now == mid
    ensures Ran(was, text[..k + 1], now)
  {
    hide ControlDone, IsControl, CsiParams.Scanned;
    var t := text[..k + 1];
    assert t[..|t| - 1] == text[..k] && t[|t| - 1] == text[k];
  }

  // Nothing more happens once there are too many parameters.
  lemma {:induction false} RanEnds(was: State, text: string, k: nat, now: State)
    requires k <= |text| && Ran(was, text[..k], now) && CsiParams.Scanned(text[..k]).TooLong?
    ensures Ran(was, text, now)
    decreases |text| - k
  {
    hide ControlDone, IsControl, CsiParams.Scanned;
    if k < |text| {
      var t := text[..k + 1];
      assert t[..|t| - 1] == text[..k];
      CsiParams.TooLongStays(t, k);
      RanEnds(was, text, k + 1, now);
    } else {
      assert text[..k] == text;
    }
  }

  ghost predicate Plain(s: string) {
    forall i :: 0 <= i < |s| ==> !IsControl(s[i] as int)
  }

  lemma {:induction false} PlainRuns(was: State, text: string, now: State)
    requires Plain(text) && Ran(was, text, now)
    ensures now == was
  {
    hide ControlDone, IsControl, CsiParams.Scanned;
    if text != [] {
      var before, c := text[..|text| - 1], text[|text| - 1] as int;
      var mid :| Ran(was, before, mid) &&
        if CsiParams.Scanned(before).Params? && IsControl(c) then ControlDone(mid, c, now) else now == mid;
      PlainRuns(was, before, mid);
    }
  }

  // A list of private modes: the flags that are named, and the screen that is active.
  ghost predicate Switches(params: seq<int>) {
    47 in params || 1047 in params || 1049 in params
  }

  lemma LastOf(params: seq<int>)
    requires params != []
    ensures forall p :: p in params <==> p in params[..|params| - 1] || p == params[|params| - 1]
  {
    var before, x := params[..|params| - 1], params[|params| - 1];
    assert params == before + [x];
  }

  lemma OneFlag(s: State, p: int, on: bool)
    ensures var t := PrivateOne(s, p, on);
      && t.onAlternate == (if p in {47, 1047, 1049} then on else s.onAlternate)
      && t.modes.cursorKeys == (if p == 1 then on else s.modes.cursorKeys)
      && t.modes.relative == (if p == 6 then on else s.modes.relative)
      && t.modes.cursorHidden == (if p == 25 then !on else s.modes.cursorHidden)
      && t.modes.mouse == (if p == 1000 then on else s.modes.mouse)
      && t.modes.insert == s.modes.insert && t.sets == s.sets && t.events == s.events && t.saves == s.saves
  {
    hide CursorKept, BlankRows;
  }

  lemma {:induction false} PrivateFlags(s: State, params: seq<int>, on: bool)
    ensures var t := PrivateAll(s, params, on);
      && t.onAlternate == (if Switches(params) then on else s.onAlternate)
      && t.modes.cursorKeys == (if 1 in params then on else s.modes.cursorKeys)
      && t.modes.relative == (if 6 in params then on else s.modes.relative)
      && t.modes.cursorHidden == (if 25 in params then !on else s.modes.cursorHidden)
      && t.modes.mouse == (if 1000 in params then on else s.modes.mouse)
      && t.modes.insert == s.modes.insert && t.sets == s.sets && t.events == s.events && t.saves == s.saves
  {
    hide PrivateOne;
    if params != [] {
      LastOf(params);
      OneFlag(PrivateAll(s, params[..|params| - 1], on), params[|params| - 1], on);
      PrivateFlags(s, params[..|params| - 1], on);
    }
  }

  ghost function Side(s: State, alternate: bool): Screen {
    if alternate then s.alternate else s.normal
  }

  // Whether the i-th parameter saves or restores the cursor of this screen, and whether it is the last that does.
  ghost predicate KeepsAt(s: State, params: seq<int>, on: bool, alternate: bool, i: int) {
    0 <= i < |params| &&
    ((params[i] == 1049 && alternate == on)
     || (params[i] == 1048 && alternate == if Switches(params[..i]) then on else s.onAlternate))
  }

  ghost predicate KeepsLast(s: State, params: seq<int>, on: bool, alternate: bool, i: int) {
    KeepsAt(s, params, on, alternate, i) && forall j :: KeepsAt(s, params, on, alternate, j) ==> j <= i
  }

  // The cells of a screen when the alternate one is left: those that show are blank.
  ghost predicate Emptied(was: Screen, now: Screen) {
    && |now.rows| == |was.rows|
    && forall i :: 0 <= i < |was.rows| ==>
      && |now.rows[i]| == |was.rows[i]|
      && forall j :: 0 <= j < |was.rows[i]| ==> now.rows[i][j] == if j < was.cols then BLANK else was.rows[i][j]
  }

  lemma BlankIsEmptied(s: Screen)
    ensures Emptied(s, s.(rows := BlankRows(s.rows, 0, |s.rows|, s.cols, BLANK)))
  {
  }

  lemma EmptiedTwice(s: Screen, t: Screen, u: Screen)
    requires (t.rows == s.rows || Emptied(s, t)) && Emptied(t, u) && t.cols == s.cols
    ensures Emptied(s, u)
  {
    forall i | 0 <= i < |s.rows|
      ensures |u.rows[i]| == |s.rows[i]|
        && forall j :: 0 <= j < |s.rows[i]| ==> u.rows[i][j] == if j < s.cols then BLANK else s.rows[i][j]
    {
      assert |t.rows[i]| == |s.rows[i]|;
    }
  }

  // Setting modes touches no cell. Resetting a mode that switches empties the alternate screen and no other.
  lemma {:induction false} PrivateCells(s: State, params: seq<int>, on: bool)
    ensures var t := PrivateAll(s, params, on);
      && t.normal.rows == s.normal.rows
      && (if Switches(params) && !on then Emptied(s.alternate, t.alternate) else t.alternate.rows == s.alternate.rows)
      && t.alternate.cols == s.alternate.cols
  {
    hide BlankRows, Emptied;
    if params != [] {
      var before := params[..|params| - 1];
      var m, t := PrivateAll(s, before, on), PrivateAll(s, params, on);
      LastOf(params);
      PrivateCells(s, before, on);
      if params[|params| - 1] in {47, 1047, 1049} && !on {
        BlankIsEmptied(m.alternate);
        EmptiedTwice(s.alternate, m.alternate, Switched(m, on).alternate);
        assert t.alternate.rows == Switched(m, on).alternate.rows;
        SameEmptied(s.alternate, Switched(m, on).alternate, t.alternate);
      } else if Switches(before) && !on {
        SameEmptied(s.alternate, m.alternate, t.alternate);
      }
    }
  }

  lemma SameEmptied(s: Screen, t: Screen, u: Screen)
    requires Emptied(s, t) && u.rows == t.rows
    ensures Emptied(s, u)
  {
  }

  lemma KeptTwice(s: Screen, rows: seq<seq<Cell>>, on: bool, first: bool, relative: bool)
    ensures CursorKept(CursorKept(s, on, first).(rows := rows), on, relative)
         == CursorKept(s.(rows := rows), on, relative)
  {
  }

  lemma LastKeep(s: State, params: seq<int>, on: bool, alternate: bool, i: int) returns (k: int)
    requires KeepsAt(s, params, on, alternate, i)
    ensures KeepsLast(s, params, on, alternate, k)
  {
    hide KeepsAt;
    KeepsInside(s, params, on, alternate);
    k := i;
    for j := i + 1 to |params|
      invariant k < j && KeepsAt(s, params, on, alternate, k)
      invariant forall l :: KeepsAt(s, params, on, alternate, l) && l < j ==> l <= k
    {
      if KeepsAt(s, params, on, alternate, j) {
        k := j;
      }
    }
  }

  lemma KeepsInside(s: State, params: seq<int>, on: bool, alternate: bool)
    ensures forall i :: KeepsAt(s, params, on, alternate, i) ==> 0 <= i < |params|
  {
  }

  lemma KeepsBefore(s: State, params: seq<int>, on: bool, alternate: bool, i: int)
    requires params != []
    ensures i < |params| - 1 ==>
      (KeepsAt(s, params, on, alternate, i) <==> KeepsAt(s, params[..|params| - 1], on, alternate, i))
  {
    if 0 <= i < |params| - 1 {
      assert params[..|params| - 1][..i] == params[..i];
    }
  }

  lemma KeptOver(s: Screen, rows: seq<seq<Cell>>, on: bool, relative: bool, to: seq<seq<Cell>>)
    requires |rows| == |s.rows|
    ensures CursorKept(s.(rows := rows), on, relative).(rows := to) == CursorKept(s, on, relative).(rows := to)
  {
  }

  lemma OneCursor(s: State, p: int, on: bool, alternate: bool)
    ensures var y := Side(PrivateOne(s, p, on), alternate);
      y == (if (p == 1049 && alternate == on) || (p == 1048 && alternate == s.onAlternate)
            then CursorKept(Side(s, alternate), on, s.modes.relative) else Side(s, alternate)).(rows := y.rows)
  {
    hide CursorKept, BlankRows;
  }

  // The last parameter.
  lemma LastStep(s: State, params: seq<int>, on: bool, alternate: bool)
    requires params != []
    ensures var m, y := PrivateAll(s, params[..|params| - 1], on), Side(PrivateAll(s, params, on), alternate);
      y == (if KeepsAt(s, params, on, alternate, |params| - 1)
            then CursorKept(Side(m, alternate), on, m.modes.relative) else Side(m, alternate)).(rows := y.rows)
  {
    hide CursorKept, PrivateOne;
    PrivateFlags(s, params[..|params| - 1], on);
    OneCursor(PrivateAll(s, params[..|params| - 1], on), params[|params| - 1], on, alternate);
  }

  // The cursor that is saved or restored, and in which mode: each screen keeps its cursor and what it had saved
  // unless some parameter is for it, and then the last such one counts.
  lemma {:induction false} PrivateCursors(s: State, params: seq<int>, on: bool, alternate: bool)
    ensures var x, y := Side(s, alternate), Side(PrivateAll(s, params, on), alternate);
      && ((forall i :: !KeepsAt(s, params, on, alternate, i)) ==> y == x.(rows := y.rows))
      && forall i :: KeepsLast(s, params, on, alternate, i) ==>
        y == CursorKept(x, on, if 6 in params[..i] then on else s.modes.relative).(rows := y.rows)
  {
    hide CursorKept, BlankRows, KeepsAt;
    KeepsInside(s, params, on, alternate);
    if params != [] {
      var n, before := |params| - 1, params[..|params| - 1];
      var m, x := PrivateAll(s, before, on), Side(s, alternate);
      var y := Side(PrivateAll(s, params, on), alternate);
      PrivateCursors(s, before, on, alternate);
      PrivateFlags(s, before, on);
      forall i ensures i < n ==> (KeepsAt(s, params, on, alternate, i) <==> KeepsAt(s, before, on, alternate, i)) {
        KeepsBefore(s, params, on, alternate, i);
      }
      KeepsInside(s, before, on, alternate);
      LastStep(s, params, on, alternate);
      var r := if 6 in before then on else s.modes.relative;
      if KeepsAt(s, params, on, alternate, n) {
        if i :| KeepsAt(s, before, on, alternate, i) {
          var k := LastKeep(s, before, on, alternate, i);
          var q := if 6 in before[..k] then on else s.modes.relative;
          KeptTwice(x, Side(m, alternate).rows, on, q, r);
        }
        PrivateCells(s, before, on);
        KeptOver(x, Side(m, alternate).rows, on, r, y.rows);
      } else {
        forall i | KeepsLast(s, params, on, alternate, i)
          ensures KeepsLast(s, before, on, alternate, i) && before[..i] == params[..i]
        {
        }
      }
    }
  }

  // What is written past the end of an array, on either screen.
  ghost function Overruns(s: State): (bool, bool) {
    (s.normal.overrun, s.alternate.overrun)
  }

  // What no control and no printed character changes.
  ghost predicate Alike(was: State, now: State) {
    && now.onAlternate == was.onAlternate && There(now) == There(was) && Here(now).pen == Here(was).pen
    && Here(now).savedPen == Here(was).savedPen && Here(now).overrun == Here(was).overrun
    && now.saves == was.saves && now.sets.saved == was.sets.saved && now.modes == was.modes
  }

  lemma ControlKeeps(was: State, wc: int, now: State)
    requires ControlDone(was, wc, now)
    ensures Alike(was, now) && (Past(Here(now)) ==> Past(Here(was)))
  {
    hide Ok, ControlEffect;
    ControlStays(Here(was), wc, Here(now));
  }

  lemma PrintKeeps(was: State, wc: int, width: int -> int, glyph: int -> int, now: State)
    requires PrintDone(was, wc, width, glyph, now)
    ensures Alike(was, now)
  {
    hide Ok, Printed;
    var text := if was.sets.graph && 0x41 <= wc <= 0x7e && glyph(wc) != 0 then glyph(wc) else wc;
    var columns := if was.sets.graph || width(wc) < 1 then 1 else width(wc);
    NoOverrun(Here(was), Here(now), wc, text, columns, was.modes.insert);
  }

  lemma {:induction false} RanKeeps(was: State, text: string, now: State)
    requires Ran(was, text, now)
    ensures Alike(was, now) && (Past(Here(now)) ==> Past(Here(was)))
  {
    hide ControlDone, IsControl, CsiParams.Scanned;
    if text != [] {
      var before, c := text[..|text| - 1], text[|text| - 1] as int;
      var mid :| Ran(was, before, mid) &&
        if CsiParams.Scanned(before).Params? && IsControl(c) then ControlDone(mid, c, now) else now == mid;
      RanKeeps(was, before, mid);
      if CsiParams.Scanned(before).Params? && IsControl(c) {
        ControlKeeps(mid, c, now);
      }
    }
  }

  // Whether the attributes were saved, as they are now.
  ghost predicate SavedStep(was: State, saving: bool, now: State) {
    if saving then
      && now.onAlternate == was.onAlternate && Here(now).savedPen == Here(now).pen == Here(was).pen
      && There(now).savedPen == There(was).savedPen && now.sets.saved == now.sets.graph
      && now.saves == was.saves + [Save(now.onAlternate, Here(now).pen, now.sets.graph)]
    else
      && now.normal.savedPen == was.normal.savedPen && now.alternate.savedPen == was.alternate.savedPen
      && now.saves == was.saves && now.sets.saved == was.sets.saved
  }

  // What every step keeps: of what was saved, of what is in bounds, and of the normal screen.
  ghost predicate Kept(was: State, saving: bool, now: State) {
    && SavedStep(was, saving, now) && (!Past(Here(was)) ==> Overruns(now) == Overruns(was))
    && (was.onAlternate && now.onAlternate ==> now.normal == was.normal)
  }

  lemma AlikeKept(was: State, now: State)
    requires Alike(was, now)
    ensures Kept(was, false, now)
  {
  }

  lemma KeptAfter(was: State, mid: State, saving: bool, now: State)
    requires Alike(was, mid) && (Past(Here(mid)) ==> Past(Here(was))) && Kept(mid, saving, now)
    ensures Kept(was, saving, now)
  {
  }

  lemma SwitchKept(s: State, on: bool)
    ensures var t := Switched(s, on);
      Kept(s, false, t) && Overruns(t) == Overruns(s) && t.onAlternate == on && t.normal == s.normal
  {
    hide BlankRows, Past;
  }

  lemma CursorKeptKept(s: State, on: bool)
    ensures var t := Put(s, CursorKept(Here(s), on, s.modes.relative));
      && Kept(s, false, t) && Overruns(t) == Overruns(s) && t.onAlternate == s.onAlternate
      && (s.onAlternate ==> t.normal == s.normal)
  {
    hide CursorKept, Past;
    CursorsOnly(Here(s), s.modes.relative, on);
  }

  lemma OneKept(s: State, p: int, on: bool)
    ensures var t := PrivateOne(s, p, on);
      && Kept(s, false, t) && Overruns(t) == Overruns(s)
      && (s.onAlternate && on ==> t.onAlternate) && (t.onAlternate && !on ==> s.onAlternate)
  {
    hide CursorKept, Switched, Past, Put, Here;
    if p in {47, 1047} {
      SwitchKept(s, on);
    } else if p == 1048 {
      CursorKeptKept(s, on);
    } else if p == 1049 {
      SwitchKept(s, on);
      CursorKeptKept(Switched(s, on), on);
    }
  }

  lemma {:induction false} PrivateKeeps(s: State, params: seq<int>, on: bool)
    ensures var t := PrivateAll(s, params, on);
      && Kept(s, false, t) && Overruns(t) == Overruns(s)
      && (s.onAlternate && on ==> t.onAlternate) && (t.onAlternate && !on ==> s.onAlternate)
  {
    hide PrivateOne, Past;
    if params != [] {
      PrivateKeeps(s, params[..|params| - 1], on);
      OneKept(PrivateAll(s, params[..|params| - 1], on), params[|params| - 1], on);
    }
  }

  lemma CursorsOnly(s: Screen, relative: bool, on: bool)
    ensures var t := CursorKept(s, on, relative); t.savedPen == s.savedPen && t.overrun == s.overrun
  {
  }

  lemma ActedKept(was: State, private: bool, verb: char, scan: CsiParams.Scan, now: State)
    requires CsiActed(was, private, verb, scan, now)
    ensures Kept(was, !private && verb == 'J' && scan.Params?, now)
  {
    hide Ok, Effect, PrivateAll, CursorKept;
    if scan.Params? {
      if private {
        PrivateKeeps(was, scan.values, verb == 'h');
      } else if verb !in "hln" {
        CsiInBounds(Here(was), verb, scan.values, was.modes.relative, Here(now));
        SavedByCsi(Here(was), verb, scan.values, was.modes.relative, Here(now));
      }
    }
  }

  // Whether this is all of a sequence that saves the attributes: DECSC, DECALN, or ED with no more parameters than
  // there is room for.
  ghost predicate Saving(s: string)
    requires s != []
  {
    s[0] == '7' || s == "#8"
    || (s[0] == '[' && |s| >= 2 && s[|s| - 1] == 'J' && s[1] != '?' && CsiParams.Scanned(Body(s)).Params?)
  }

  lemma CsiKept(was: State, s: string, now: State)
    requires |s| >= 2 && CsiDone(was, s, now)
    ensures Kept(was, s[1] != '?' && s[|s| - 1] == 'J' && CsiParams.Scanned(Body(s)).Params?, now)
  {
    hide Ran, CsiActed, CsiParams.Scanned, Body, Kept, Alike;
    var private, verb, scan := s[1] == '?', s[|s| - 1], CsiParams.Scanned(Body(s));
    var mid :| Ran(was, Body(s), mid) && CsiActed(mid, private, verb, scan, now);
    RanKeeps(was, Body(s), mid);
    ActedKept(mid, private, verb, scan, now);
    KeptAfter(was, mid, !private && verb == 'J' && scan.Params?, now);
  }

  lemma EscapeKept(was: State, c: char, now: State)
    requires EscapeDone(was, c, now)
    ensures Kept(was, c == '7', now)
  {
    hide Ok, EscapeEffect;
    EscapeInBounds(Here(was), c, was.modes.relative, Here(now));
    SavedByEscape(Here(was), c, was.modes.relative, Here(now));
  }

  lemma AlignKept(was: State, now: State)
    requires AlignDone(was, now)
    ensures Kept(was, true, now)
  {
    hide Ok;
  }

  lemma SequenceKept(was: State, s: string, now: State)
    requires s != [] && Complete(s) && SequenceDone(was, s, now)
    ensures Kept(was, Saving(s), now)
  {
    hide CsiDone, AlignDone, EscapeDone, CsiParams.Scanned, Body, Past;
    match s[0]
    case '[' => CsiKept(was, s, now);
    case '#' =>
      if s[1] == '8' {
        AlignKept(was, now);
      }
    case ']' | '(' | ')' =>
    case c =>
      if c in "78DEMH" {
        EscapeKept(was, c, now);
      }
  }

  // The attributes are saved exactly by the character that completes such a sequence.
  ghost predicate Saves(was: Machine, wc: int, size: nat) {
    var s := was.text + [(wc % 256) as char];
    was.escaped && |s| < size && Complete(s) && Saving(s)
  }

  lemma StepKept(was: Machine, wc: int, size: nat, width: int -> int, glyph: int -> int, now: Machine)
    requires Steps(was, wc, size, width, glyph, now)
    ensures Kept(was.state, Saves(was, wc, size), now.state)
    ensures !was.escaped && wc != 27 ==> !now.escaped && now.state.onAlternate == was.state.onAlternate
  {
    hide ControlDone, PrintDone, SequenceDone, Complete, Saving, Kept, IsControl;
    var s := was.text + [(wc % 256) as char];
    NothingKept(was.state);
    if !was.escaped {
      if IsControl(wc) {
        ControlKeeps(was.state, wc, now.state);
      } else {
        PrintKeeps(was.state, wc, width, glyph, now.state);
      }
      AlikeKept(was.state, now.state);
    } else if |s| < size && Complete(s) {
      SequenceKept(was.state, s, now.state);
    }
  }

  lemma NothingKept(s: State)
    ensures Kept(s, false, s)
  {
  }

  // Streams of characters.

  ghost predicate IsTrace(trace: seq<Machine>, stream: seq<int>, size: nat, width: int -> int, glyph: int -> int) {
    |trace| == |stream| + 1
    && forall i :: 0 <= i < |stream| ==> Steps(trace[i], stream[i], size, width, glyph, trace[i + 1])
  }

  // As long as the alternate screen is active, the normal one and its history are not touched.
  lemma {:induction false} NormalUntouched(trace: seq<Machine>, stream: seq<int>, size: nat, width: int -> int,
                                           glyph: int -> int, n: nat)
    requires IsTrace(trace, stream, size, width, glyph) && n <= |stream|
    requires forall i :: 0 <= i <= n ==> trace[i].state.onAlternate
    ensures trace[n].state.normal == trace[0].state.normal
  {
    hide Steps;
    if n > 0 {
      NormalUntouched(trace, stream, size, width, glyph, n - 1);
      StepKept(trace[n - 1], stream[n - 1], size, width, glyph, trace[n]);
    }
  }

  // Without ESC the active screen stays the same.
  lemma {:induction false} NoSwitch(trace: seq<Machine>, stream: seq<int>, size: nat, width: int -> int,
                                    glyph: int -> int, n: nat)
    requires IsTrace(trace, stream, size, width, glyph) && n <= |stream| && !trace[0].escaped && 27 !in stream
    ensures !trace[n].escaped && trace[n].state.onAlternate == trace[0].state.onAlternate
  {
    hide Steps;
    if n > 0 {
      NoSwitch(trace, stream, size, width, glyph, n - 1);
      StepKept(trace[n - 1], stream[n - 1], size, width, glyph, trace[n]);
    }
  }

  // As long as no character finds the cursor past its row, every access is in bounds.
  lemma {:induction false} AllInBounds(trace: seq<Machine>, stream: seq<int>, size: nat, width: int -> int,
                                       glyph: int -> int, n: nat)
    requires IsTrace(trace, stream, size, width, glyph) && n <= |stream|
    requires forall i :: 0 <= i < n ==> !Past(Here(trace[i].state))
    ensures Overruns(trace[n].state) == Overruns(trace[0].state)
  {
    hide Steps, Past;
    if n > 0 {
      AllInBounds(trace, stream, size, width, glyph, n - 1);
      StepKept(trace[n - 1], stream[n - 1], size, width, glyph, trace[n]);
    }
  }

  // The pen and the character set saved last, if any of these did.
  ghost function LastPen(since: seq<Save>, alternate: bool, pen: Cell): Cell {
    if since == [] then pen
    else
      var x := since[|since| - 1];
      if x.alternate == alternate then x.pen else LastPen(since[..|since| - 1], alternate, pen)
  }

  ghost function LastGraph(since: seq<Save>, graph: bool): bool {
    if since == [] then graph else since[|since| - 1].graph
  }

  // What is saved after these attributes were, on either screen.
  ghost predicate SavedOver(was: State, since: seq<Save>, now: State) {
    && now.saves == was.saves + since && now.sets.saved == LastGraph(since, was.sets.saved)
    && now.normal.savedPen == LastPen(since, false, was.normal.savedPen)
    && now.alternate.savedPen == LastPen(since, true, was.alternate.savedPen)
  }

  lemma SavedNext(was: State, since: seq<Save>, mid: State, saving: bool, now: State) returns (more: seq<Save>)
    requires SavedOver(was, since, mid) && SavedStep(mid, saving, now)
    ensures SavedOver(was, more, now)
  {
    var x := Save(now.onAlternate, Here(now).pen, now.sets.graph);
    more := since + if saving then [x] else [];
    if saving {
      assert more[..|since|] == since;
      assert was.saves + more == was.saves + since + [x];
    } else {
      assert more == since;
    }
  }

  // What is saved for DECRC is what the stream saved last.
  lemma {:induction false} SavedLast(trace: seq<Machine>, stream: seq<int>, size: nat, width: int -> int,
                                     glyph: int -> int, n: nat) returns (since: seq<Save>)
    requires IsTrace(trace, stream, size, width, glyph) && n <= |stream|
    ensures SavedOver(trace[0].state, since, trace[n].state)
  {
    hide Steps, Saves;
    since := [];
    if n > 0 {
      since := SavedLast(trace, stream, size, width, glyph, n - 1);
      StepKept(trace[n - 1], stream[n - 1], size, width, glyph, trace[n]);
      since := SavedNext(trace[0].state, since, trace[n - 1].state,
        Saves(trace[n - 1], stream[n - 1], size), trace[n].state);
    }
  }

  lemma TraceNext(trace: seq<Machine>, stream: seq<int>, i: nat, size: nat, width: int -> int, glyph: int -> int,
                  now: Machine)
    requires i < |stream| && IsTrace(trace, stream[..i], size, width, glyph)
    requires Steps(trace[i], stream[i], size, width, glyph, now)
    ensures IsTrace(trace + [now], stream[..i + 1], size, width, glyph)
  {
    hide Steps;
    var more, all := trace + [now], stream[..i + 1];
    forall j | 0 <= j < |all| ensures Steps(more[j], all[j], size, width, glyph, more[j + 1]) {
      if j < i {
        assert more[j] == trace[j] && more[j + 1] == trace[j + 1] && all[j] == stream[..i][j];
      }
    }
  }

  // A sequence without its ESC, complete with its last character and not before.
  ghost predicate IsSequence(s: string) {
    && s != [] && Complete(s) && (forall c :: c in s ==> c as int < 256)
    && forall i :: 0 < i < |s| ==> !Complete(s[..i])
  }

  lemma EscapeStarts(was: Machine, size: nat, width: int -> int, glyph: int -> int, now: Machine)
    requires !was.escaped && Steps(was, 27, size, width, glyph, now)
    ensures now == Machine(was.state, true, [])
  {
    hide Ok;
  }

  lemma StillCollecting(was: Machine, s: string, i: nat, size: nat, width: int -> int, glyph: int -> int, now: Machine)
    requires IsSequence(s) && |s| < size && i < |s| - 1 && was.escaped && was.text == s[..i]
    requires Steps(was, s[i] as int, size, width, glyph, now)
    ensures now == Machine(was.state, true, s[..i + 1])
  {
    hide Complete, SequenceDone;
    assert s[i] in s && s[..i] + [s[i]] == s[..i + 1];
    assert !Complete(s[..i + 1]);
  }

  lemma NowComplete(was: Machine, s: string, size: nat, width: int -> int, glyph: int -> int, now: Machine)
    requires IsSequence(s) && |s| < size && was.escaped && was.text == s[..|s| - 1]
    requires Steps(was, s[|s| - 1] as int, size, width, glyph, now)
    ensures SequenceDone(was.state, s, now.state) && !now.escaped
  {
    hide Complete, SequenceDone;
    assert s[|s| - 1] in s && s[..|s| - 1] + [s[|s| - 1]] == s;
  }

  // Characters that a control sequence may have before its final one.
  ghost predicate Parameters(text: string) {
    && (forall c :: c in text ==> c as int < 256 && !IsEnder(c) && !IsControl(c as int))
    && (text != [] ==> text[0] != '?')
  }

  lemma IsCsi(start: string, text: string, verb: char)
    requires start in {"[", "[?"} && Parameters(text) && IsEnder(verb)
    ensures IsSequence(start + text + [verb])
  {
    var s := start + text + [verb];
    forall i | 0 < i < |s| ensures !Complete(s[..i]) {
      assert s[..i][i - 1] == s[i - 1];
      assert i - 1 >= |start| ==> s[i - 1] in text;
    }
  }

  // Without control characters in it, a control sequence acts on what there was.
  lemma CsiPlain(was: State, start: string, text: string, verb: char, now: State)
    requires start in {"[", "[?"} && Parameters(text) && IsEnder(verb)
    requires CsiDone(was, start + text + [verb], now)
    ensures CsiActed(was, start == "[?", verb, CsiParams.Scanned(text), now)
  {
    hide CsiActed, Ran, CsiParams.Scanned;
    var s := start + text + [verb];
    PlainBody(start, text, verb);
    var private := s[1] == '?';
    var mid :| Ran(was, Body(s), mid) && CsiActed(mid, private, verb, CsiParams.Scanned(Body(s)), now);
    PlainRuns(was, Body(s), mid);
    assert private == (start == "[?");
  }

  // The final character is no parameter.
  lemma PlainBody(start: string, text: string, verb: char)
    requires start in {"[", "[?"} && Parameters(text) && IsEnder(verb)
    ensures var s := start + text + [verb];
      Body(s) == text + [verb] && Plain(Body(s)) && CsiParams.Scanned(Body(s)) == CsiParams.Scanned(text)
      && (s[1] == '?' <==> start == "[?")
  {
    hide Text, Plain, Parameters, IsEnder, CsiParams.Scanned;
    var b := text + [verb];
    PlainText(text, verb);
    Without("[", b);
    Without("[?", b);
    assert start + text + [verb] == start + b;
    assert (start + b)[1] == if start == "[?" then '?' else b[0];
  }

  lemma Without(start: string, b: string)
    ensures (start + b)[|start|..] == b
  {
  }

  lemma PlainText(text: string, verb: char)
    requires Parameters(text) && IsEnder(verb)
    ensures Text(text + [verb]) == text + [verb] && Plain(text + [verb]) && (text + [verb])[0] != '?'
    ensures CsiParams.Scanned(text + [verb]) == CsiParams.Scanned(text)
  {
    hide Text;
    var b := text + [verb];
    forall i | 0 <= i < |b| ensures !IsControl(b[i] as int) && b[i] != '\0' {
      assert i < |text| ==> b[i] in text;
    }
    WholeText(b);
    assert b[..|text|] == text;
  }

  lemma Scanned1049()
    ensures CsiParams.Scanned("1049") == CsiParams.Params([1049]) && Parameters("1049")
    ensures forall s, on :: PrivateAll(s, [1049], on) == PrivateOne(s, 1049, on)
  {
    assert "1049"[..3] == "104" && "104"[..2] == "10" && "10"[..1] == "1" && "1"[..0] == "";
    forall s, on ensures PrivateAll(s, [1049], on) == PrivateOne(s, 1049, on) {
      assert [1049][..0] == [];
    }
  }

  lemma BackAgain(s: State, trace: seq<Machine>, stream: seq<int>, size: nat, width: int -> int, glyph: int -> int,
                  now: State)
    requires IsTrace(trace, stream, size, width, glyph) && !s.onAlternate && trace[0].state == PrivateOne(s, 1049, true)
    requires now == PrivateOne(trace[|stream|].state, 1049, false)
    ensures !now.onAlternate
    ensures (forall i :: 0 <= i <= |stream| ==> trace[i].state.onAlternate) ==>
      now.normal == CursorKept(s.normal, false, now.modes.relative)
  {
    hide CursorKept, BlankRows, Steps;
    if forall i :: 0 <= i <= |stream| ==> trace[i].state.onAlternate {
      NormalUntouched(trace, stream, size, width, glyph, |stream|);
    }
  }

  lemma Restored(was: State, start: State, since: seq<Save>, end: State, now: State)
    requires EscapeDone(was, '7', start) && SavedOver(start, since, end)
    ensures end.saves == was.saves + [Save(was.onAlternate, Here(was).pen, was.sets.graph)] + since
    ensures EscapeDone(end, '8', now) && end.onAlternate == was.onAlternate ==>
      && Here(now).pen == LastPen(since, was.onAlternate, Here(was).pen)
      && now.sets.graph == LastGraph(since, was.sets.graph)
  {
    hide Ok, LastPen, LastGraph, EscapeEffect;
    SavedByEscape(Here(was), '7', was.modes.relative, Here(start));
    if EscapeDone(end, '8', now) {
      SavedByEscape(Here(end), '8', end.modes.relative, Here(now));
    }
  }

  ghost function Footprint(p: Pane): set<object>
    reads p.b
  {
    {p, p.b, p.b.lines, p.b.scrollBuf, p.tabs}
  }

  // What its view is made of.
  ghost function Seen(p: Pane): set<object> {
    {p, p.b, p.tabs}
  }

  // The dimensions of a screen, which no character changes.
  ghost function Shape(p: Pane): (array<Row>, array<Row>, int, int, int, int)
    reads p.b
  {
    (p.b.lines, p.b.scrollBuf, |p.b.screen|, |p.b.ring|, p.b.cols, p.b.maxcols)
  }

  class Vt {
    const normal: Pane
    const alternate: Pane
    const width: int -> int  // columns that a character takes, or less than 1
    const glyph: int -> int  // line drawing characters, 0 if there is none
    const ebuf: array<char>
    var active: Pane
    var elen: nat
    var escaped: bool
    var insert: bool
    var cursorHidden: bool
    var cursorKeys: bool
    var relative: bool
    var mouse: bool
    var graph: bool
    var savedGraph: bool
    var g0: bool
    var g1: bool
    var events: seq<Event>
    ghost var saves: seq<Save>  // all that attributes_save ever stored

    ghost predicate Apart()
      reads normal.b, alternate.b
    {
      && normal.b != alternate.b && normal.tabs != alternate.tabs && normal != alternate
      && {normal.b.lines, normal.b.scrollBuf} !! {alternate.b.lines, alternate.b.scrollBuf}
    }

    // The sequence collected so far ends in a NUL inside its buffer.
    ghost predicate Terminated()
      reads `elen, ebuf
    {
      256 <= ebuf.Length && elen < ebuf.Length && ebuf[elen] == '\0'
    }

    ghost predicate Valid()
      reads `active, `elen, ebuf, Footprint(normal), Footprint(alternate)
    {
      && Apart() && (active == normal || active == alternate) && normal.Valid() && alternate.Valid()
      && Terminated() && forall c :: width(c) <= 2
    }

    ghost function Other(): Pane
      reads `active
    {
      if active == normal then alternate else normal
    }

    ghost function Shapes(): ((array<Row>, array<Row>, int, int, int, int), (array<Row>, array<Row>, int, int, int,
                          int))
      reads normal.b, alternate.b
    {
      (Shape(normal), Shape(alternate))
    }

    ghost function Flags(): Modes
      reads `insert, `cursorHidden, `cursorKeys, `relative, `mouse
    {
      Modes(insert, cursorHidden, cursorKeys, relative, mouse)
    }

    ghost function Sets(): Charsets
      reads `g0, `g1, `graph, `savedGraph
    {
      Charsets(g0, g1, graph, savedGraph)
    }

    ghost function Now(): State
      reads `active, `insert, `cursorHidden, `cursorKeys, `relative, `mouse, `g0, `g1, `graph, `savedGraph, `events,
        `saves, Seen(normal), Seen(alternate)
    {
      State(active != normal, normal.View(), alternate.View(), Flags(), Sets(), events, saves)
    }

    // The sequence that is being collected.
    ghost function Collected(): string
      requires elen <= ebuf.Length
      reads `elen, ebuf
    {
      ebuf[..elen]
    }

    ghost function Whole(): Machine
      requires elen <= ebuf.Length
      reads this, ebuf, Seen(normal), Seen(alternate)
    {
      Machine(Now(), escaped, if escaped then Collected() else [])
    }

    lemma OkNow()
      requires Valid()
      ensures Ok(Here(Now())) && Here(Now()) == active.View() && (Now().onAlternate <==> active == alternate)
      ensures (active == normal || active == alternate) && elen < ebuf.Length && Now().modes.relative == relative
    {
    }

    // A step of the active screen, and of what is saved with it.
    twostate lemma ActiveStep()
      requires active == old(active) && (active == normal || active == alternate)
      requires Other().View() == old(Other().View()) && Flags() == old(Flags()) && events == old(events)
      ensures Here(Now()) == active.View()
      ensures Now() == Put(old(Now()).(sets := Sets(), saves := saves), active.View())
    {
      hide Pane.View;
    }

    // vt_create
    constructor (rows: nat, cols: nat, scrollSize: int, bufsiz: nat, width: int -> int, glyph: int -> int)
      requires 0 < rows && 2 <= cols && 256 <= bufsiz && forall c :: width(c) <= 2
      ensures Valid() && active == normal && !escaped && elen == 0 && events == [] && saves == []
      ensures !insert && !cursorHidden && !cursorKeys && !relative && !mouse && !graph && !savedGraph && !g0 && !g1
      ensures active.View().pen == BLANK && fresh(ebuf) && ebuf.Length == bufsiz
      ensures fresh(Footprint(normal)) && fresh(Footprint(alternate))
      ensures |normal.b.screen| == |alternate.b.screen| == rows && normal.b.cols == alternate.b.cols == cols
      ensures |normal.b.ring| == Max(0, scrollSize) && alternate.b.ring == []
      ensures this.width == width && this.glyph == glyph
    {
      hide Pane.Valid, Flags, Sets;
      normal := new Pane(rows, cols, scrollSize);
      alternate := new Pane(rows, cols, 0);
      this.width, this.glyph := width, glyph;
      ebuf := new char[bufsiz](_ => '\0');
      elen, escaped, insert, cursorHidden, cursorKeys, relative, mouse := 0, false, false, false, false, false, false;
      graph, savedGraph, g0, g1, events, saves := false, false, false, false, [], [];
      active := normal;
    }

    method NewEscape()
      requires Valid()
      modifies `escaped, `elen, ebuf
      ensures Valid() && escaped && elen == 0 && ebuf[..] == old(ebuf[..])[0 := '\0'] && Now() == old(Now())
    {
      escaped := true;
      elen := 0;
      ebuf[0] := '\0';
    }

    method CancelEscape()
      requires Valid()
      modifies `escaped, `elen, ebuf
      ensures Valid() && !escaped && elen == 0 && Now() == old(Now())
    {
      escaped := false;
      elen := 0;
      ebuf[0] := '\0';
    }

    // process_nonprinting
    method ControlChar(wc: int)
      requires Valid()
      modifies `escaped, `elen, `graph, `events, ebuf, Footprint(active)
      ensures Valid() && Shapes() == old(Shapes()) && ControlDone(old(Now()), wc, Now())
      ensures wc == 27 ==> escaped && elen == 0 && ebuf[..] == old(ebuf[..])[0 := '\0']
      ensures wc != 27 ==> escaped == old(escaped) && elen == old(elen) && ebuf[..] == old(ebuf[..])
    {
      hide Valid, Now, ControlDone, Shape;
      OkNow();
      match wc {
        case 27 =>
          Silent(Now());
          NewEscape();
        case 7 | 14 | 15 => Invoke(wc);
        case _ => ActiveControl(wc);
      }
    }

    // BEL, SO and SI.
    method Invoke(wc: int)
      requires Valid() && wc in {7, 14, 15}
      modifies `graph, `events
      ensures Valid() && ControlDone(old(Now()), wc, Now())
    {
      hide Pane.Valid, Pane.View, Ok;
      OkNow();
      match wc {
        case 7 => events := events + [Bell];
        case 14 => graph := g1;
        case 15 => graph := g0;
      }
    }

    method ActiveControl(wc: int)
      requires Valid() && wc !in {7, 14, 15, 27}
      modifies Footprint(active)
      ensures Valid() && Shapes() == old(Shapes()) && ControlDone(old(Now()), wc, Now())
    {
      hide Pane.Valid, Pane.View, ControlEffect, Ok;
      OkNow();
      active.Control(wc);
      ActiveStep();
    }

    // The parameters of the sequence in the buffer, from p on. Control characters among them are
    // carried out where they stand.
    method ParseParams(start: nat) returns (scan: CsiParams.Scan)
      requires Valid() && 1 <= start <= elen
      modifies `escaped, `elen, `graph, `events, ebuf, Footprint(active)
      ensures Valid() && Shapes() == old(Shapes()) && ebuf[1..] == old(ebuf[1..])
      ensures scan == CsiParams.Scanned(Text(old(ebuf[start..elen])))
      ensures Ran(old(Now()), Text(old(ebuf[start..elen])), Now())
    {
      hide Pane.Valid, Pane.View, Now, ControlDone, Ran, CsiParams.Step, CsiParams.Scanned, Text;
      ghost var s, n, was := ebuf[start..elen], elen, Now();
      CsiParams.NothingScanned(Text(s));
      NothingRan(was, Text(s));
      var p := start;
      scan := CsiParams.Params([]);
      while ebuf[p] != '\0'
        invariant Valid() && Shapes() == old(Shapes())
        invariant start <= p <= n < ebuf.Length && ebuf[1..] == old(ebuf[1..])
        invariant p - start <= |Text(s)| && scan == CsiParams.Scanned(Text(s)[..p - start]) && scan.Params?
        invariant Ran(was, Text(s)[..p - start], Now())
        decreases n - p
      {
        ghost var k, mid := p - start, Now();
        TextAt(s, k);
        assert ebuf[p] == ebuf[1..][p - 1] == old(ebuf[1..])[p - 1] == s[k];
        CsiParams.ScannedNext(Text(s), k);
        if ebuf[p] as int < 32 || 128 <= ebuf[p] as int < 160 {
          ControlIsSilent(scan, ebuf[p]);
          ControlChar(ebuf[p] as int);
          RanNext(was, Text(s), k, mid, Now());
        } else {
          scan := CsiParams.Step(scan, ebuf[p]);
          RanNext(was, Text(s), k, mid, mid);
          if scan.TooLong? {
            CsiParams.TooLongStays(Text(s), k + 1);
            RanEnds(was, Text(s), k + 1, mid);
            return;
          }
        }
        p := p + 1;
      }
      TextEnds(s, p - start);
    }

    // interpret_csi_mode
    method SetModes(params: seq<int>, on: bool)
      requires Valid()
      modifies `insert
      ensures Valid()
      ensures Now() == if 4 in params then old(Now()).(modes := old(Flags()).(insert := on)) else old(Now())
    {
      hide Pane.Valid, Pane.View;
      for i := 0 to |params|
        invariant Valid() && insert == if 4 in params[..i] then on else old(insert)
      {
        if params[i] == 4 {
          insert := on;
        }
      }
      assert params[..|params|] == params;
    }

    // One parameter of interpret_csi_priv_mode.
    method PrivateMode(param: int, on: bool)
      requires Valid()
      modifies `active, `cursorHidden, `cursorKeys, `relative, `mouse, Footprint(normal), Footprint(alternate)
      ensures Valid() && Shapes() == old(Shapes()) && Now() == PrivateOne(old(Now()), param, on)
    {
      hide Valid, Pane.View, Shape, CursorKept, Switched;
      match param {
        case 1 => cursorKeys := on;
        case 6 => relative := on;
        case 25 => cursorHidden := !on;
        case 1000 => mouse := on;
        case _ => PrivateScreen(param, on);
      }
    }

    method PrivateScreen(param: int, on: bool)
      requires Valid() && param !in {1, 6, 25, 1000}
      modifies `active, Footprint(normal), Footprint(alternate)
      ensures Valid() && Shapes() == old(Shapes()) && Now() == PrivateOne(old(Now()), param, on)
    {
      hide Valid, Pane.View, CursorKept, BlankRows;
      if param in {47, 1047, 1049} {
        SwitchTo(on);
      }
      OkNow();
      if param in {1048, 1049} {
        KeepCursor(on);
      }
    }

    method SwitchTo(on: bool)
      requires Valid()
      modifies `active, Footprint(normal), Footprint(alternate)
      ensures Valid() && Shapes() == old(Shapes()) && Now() == Switched(old(Now()), on)
      ensures AllDirty(active.b.lines[..])
    {
      hide Pane.Valid, BlankRows, AllDirty;
      if !on {
        alternate.Clear();
      }
      active := if on then alternate else normal;
      active.MarkAll();
    }

    method KeepCursor(on: bool)
      requires Valid()
      modifies Footprint(active)
      ensures Valid() && Shapes() == old(Shapes())
      ensures Now() == Put(old(Now()), CursorKept(old(Here(Now())), on, relative))
    {
      hide Pane.Valid;
      OkNow();
      if on {
        active.SaveCursor();
      } else {
        active.RestoreCursor(relative);
      }
      ActiveStep();
    }

    method PrivateModes(params: seq<int>, on: bool)
      requires Valid()
      modifies `active, `cursorHidden, `cursorKeys, `relative, `mouse, Footprint(normal), Footprint(alternate)
      ensures Valid() && Shapes() == old(Shapes()) && Now() == PrivateAll(old(Now()), params, on)
    {
      hide Valid, Pane.View, PrivateOne, Now;
      for i := 0 to |params|
        invariant Valid() && Shapes() == old(Shapes()) && Now() == PrivateAll(old(Now()), params[..i], on)
      {
        assert params[..i + 1][..i] == params[..i];
        PrivateMode(params[i], on);
      }
      assert params[..|params|] == params;
    }

    // What the active screen does on its own.

    method ActiveCsi(verb: char, params: seq<int>)
      requires Valid()
      modifies Footprint(active)
      ensures Valid() && Shapes() == old(Shapes()) && Now() == Put(old(Now()), Here(Now()))
      ensures Effect(old(Here(Now())), verb, params, relative, Here(Now()))
    {
      hide Pane.Valid, Pane.View, Effect, Ok;
      OkNow();
      active.Csi(verb, params, relative);
      ActiveStep();
    }

    method ActiveEscape(c: char)
      requires Valid()
      modifies Footprint(active)
      ensures Valid() && Shapes() == old(Shapes()) && Now() == Put(old(Now()), Here(Now()))
      ensures EscapeEffect(old(Here(Now())), c, relative, Here(Now()))
    {
      hide Pane.Valid, Pane.View, EscapeEffect, Ok;
      OkNow();
      active.Escape(c, relative);
      ActiveStep();
    }

    // A character of this width and this look.
    method ActivePrint(text: int, columns: nat)
      requires Valid() && 1 <= columns <= 2
      modifies Footprint(active)
      ensures Valid() && Shapes() == old(Shapes()) && Now() == Put(old(Now()), Here(Now()))
      ensures Ok(old(Here(Now()))) && Printed(old(Here(Now())), text, columns, insert, Here(Now()))
    {
      hide Pane.Valid, Pane.View, Printed, Ok;
      OkNow();
      active.Print(text, columns, insert);
      ActiveStep();
    }

    // attributes_save, as far as it concerns no screen.
    method Remember()
      requires Valid()
      modifies `savedGraph, `saves
      ensures Valid() && Now() == Remembered(old(Now()))
    {
      hide Pane.Valid, Pane.View;
      OkNow();
      savedGraph := graph;
      saves := saves + [Save(active != normal, active.View().pen, graph)];
    }

    // interpret_csi, once the parameters are read.
    method Dispatch(verb: char, private: bool, params: seq<int>)
      requires Valid()
      modifies this, Footprint(normal), Footprint(alternate)
      ensures Valid() && Shapes() == old(Shapes())
      ensures CsiActed(old(Now()), private, verb, CsiParams.Params(params), Now())
    {
      hide Valid, Pane.View, Shape, Effect, PrivateAll, Ok, Remembered;
      OkNow();
      if private {
        if verb == 'h' || verb == 'l' {
          PrivateModes(params, verb == 'h');
        }
      } else if verb == 'h' || verb == 'l' {
        SetModes(params, verb == 'h');
      } else if verb == 'n' {
        if |params| == 1 && params[0] == 6 {
          Report();
        }
      } else {
        Act(verb, params);
      }
    }

    // send_curs
    method Report()
      requires Valid()
      modifies `events
      ensures Valid()
      ensures var was := old(Now());
        Now() == was.(events := was.events + [CursorReport(Here(was).row, Here(was).col)])
    {
      hide Pane.Valid;
      OkNow();
      events := events + [CursorReport(active.b.cursRow, active.b.cursCol)];
    }

    // The sequences that act on the active screen alone. ED saves the attributes.
    method Act(verb: char, params: seq<int>)
      requires Valid() && verb !in "hln"
      modifies `savedGraph, `saves, Footprint(active)
      ensures Valid() && Shapes() == old(Shapes())
      ensures CsiActed(old(Now()), false, verb, CsiParams.Params(params), Now())
    {
      hide Valid, Pane.View, Shape, Effect, Ok, Now;
      OkNow();
      if verb == 'J' {
        Remember();
      }
      ActiveCsi(verb, params);
    }

    // interpret_csi
    method InterpretCsi()
      requires Valid() && 2 <= elen && ebuf[0] == '[' && IsEnder(ebuf[elen - 1])
      modifies this, ebuf, Footprint(normal), Footprint(alternate)
      ensures Valid() && Shapes() == old(Shapes()) && CsiDone(old(Now()), old(Collected()), Now())
    {
      hide Valid, Pane.View, CsiParams.Scanned, Text, Now, Ran, CsiActed, IsEnder;
      OkNow();
      ghost var all, was := Collected(), Now();
      var verb := ebuf[elen - 1];
      var private := ebuf[1] == '?';
      assert all[1..] == ebuf[1..elen] && all[2..] == ebuf[2..elen];
      var scan := ParseParams(if private then 2 else 1);
      ghost var mid := Now();
      if scan.Params? {
        Dispatch(verb, private, scan.values);
      } else {
        TooLongActs(mid, private, verb);
      }
      assert Ran(was, Body(all), mid);
    }

    lemma TooLongActs(was: State, private: bool, verb: char)
      ensures CsiActed(was, private, verb, CsiParams.TooLong, was)
    {
    }

    // try_interpret_escape_seq, when the first character takes more to come.
    method TryLong(first: char, last: char) returns (done: bool)
      requires Valid() && 1 <= elen && first == ebuf[0] && last == ebuf[elen - 1] && first in "#()]["
      modifies this, ebuf, Footprint(normal), Footprint(alternate)
      ensures Valid() && Shapes() == old(Shapes()) && done == Complete(old(Collected()))
      ensures done ==> SequenceDone(old(Now()), old(Collected()), Now())
      ensures !done ==> Now() == old(Now()) && elen == old(elen) && escaped == old(escaped) && ebuf[..] == old(ebuf[..])
    {
      hide Valid, Pane.View, Shape, CsiDone, CommandDone, AlignDone, EscapeDone, Now;
      OkNow();
      done := false;
      ghost var all := Collected();
      assert all[0] == first && all[|all| - 1] == last;
      if first == '[' {
        if 'a' <= last <= 'z' || 'A' <= last <= 'Z' || last == '@' || last == '`' {
          InterpretCsi();
          done := true;
        }
      } else if first == ']' {
        done := TryCommand(last);
      } else if elen == 2 {
        Select(first, last);
        done := true;
      }
    }

    // An operating system command is complete when its terminator has come.
    method TryCommand(last: char) returns (done: bool)
      requires Valid() && 1 <= elen && ebuf[0] == ']' && last == ebuf[elen - 1]
      modifies `elen, `events, ebuf
      ensures Valid() && Shapes() == old(Shapes()) && done == Complete(old(Collected()))
      ensures done ==> CommandDone(old(Now()), old(Collected()), Now())
      ensures !done ==> Now() == old(Now()) && elen == old(elen) && ebuf[..] == old(ebuf[..])
    {
      hide Valid, Pane.View, Shape;
      OkNow();
      ghost var all := Collected();
      assert all[0] == ebuf[0] && all[|all| - 1] == last && (elen >= 2 ==> all[|all| - 2] == ebuf[elen - 2]);
      done := false;
      assert elen >= 2 ==> ebuf[1..elen - 1] == all[1..|all| - 1];
      assert elen >= 3 ==> ebuf[1..elen - 2] == all[1..|all| - 2];
      if last == BEL {
        Command(1);
        done := true;
      } else if last == '\\' && elen >= 2 && ebuf[elen - 2] == ESC {
        Command(2);
        done := true;
      }
    }

    // interpret_osc, with the terminator taken off.
    method Command(terminator: nat)
      requires Valid() && terminator < elen
      modifies `elen, `events, ebuf
      ensures Valid() && Now() == old(Now()).(events := old(events) + [Osc(old(ebuf[1..elen - terminator]))])
    {
      hide Pane.Valid, Pane.View;
      elen := elen - terminator;
      ebuf[elen] := '\0';
      events := events + [Osc(ebuf[1..elen])];
    }

    // DECALN, which erases the display, and interpret_csi_scs.
    method Select(first: char, last: char)
      requires Valid() && elen == 2 && first == ebuf[0] && last == ebuf[1] && first in "#()"
      modifies `graph, `g0, `g1, `savedGraph, `saves, Footprint(active)
      ensures Valid() && Shapes() == old(Shapes()) && SequenceDone(old(Now()), [first, last], Now())
    {
      hide Pane.Valid, Pane.View, Shape, AlignDone;
      if first == '#' {
        if last == '8' {
          Align();
        }
      } else {
        if first == ')' {
          g1 := last == '0';
        } else {
          g0 := last == '0';
        }
        graph := g0;
      }
    }

    method Align()
      requires Valid()
      modifies `savedGraph, `saves, Footprint(active)
      ensures Valid() && Shapes() == old(Shapes()) && AlignDone(old(Now()), Now())
    {
      hide Pane.Valid, Pane.View, DisplayErased, Ok;
      OkNow();
      Remember();
      active.EraseDisplay(2);
      ActiveStep();
    }

    // The switch of try_interpret_escape_seq; done when the sequence is handled or given up.
    method Interpret(first: char, last: char) returns (done: bool)
      requires Valid() && 1 <= elen && first == ebuf[0] != '\0' && last == ebuf[elen - 1]
      modifies this, ebuf, Footprint(normal), Footprint(alternate)
      ensures Valid() && Shapes() == old(Shapes()) && done == Complete(old(Collected()))
      ensures done ==> SequenceDone(old(Now()), old(Collected()), Now())
      ensures !done ==> Now() == old(Now()) && elen == old(elen) && escaped == old(escaped) && ebuf[..] == old(ebuf[..])
    {
      hide Valid, Pane.View, Shape, CsiDone, CommandDone, AlignDone, EscapeDone, Now;
      OkNow();
      done := true;
      assert Collected()[0] == first;
      if first in "#()][" {
        done := TryLong(first, last);
      } else if first in "78DMEH" {
        Short(first);
      }
    }

    // DECSC, DECRC, IND, RI, NEL and HTS.
    method Short(first: char)
      requires Valid() && first in "78DMEH"
      modifies `graph, `savedGraph, `saves, Footprint(active)
      ensures Valid() && Shapes() == old(Shapes()) && EscapeDone(old(Now()), first, Now())
    {
      hide Pane.Valid, Pane.View, EscapeEffect, Ok;
      OkNow();
      if first == '7' {
        Remember();
      } else if first == '8' {
        graph := savedGraph;
      }
      ActiveEscape(first);
    }

    // try_interpret_escape_seq
    method TryInterpret()
      requires Valid() && 1 <= elen && escaped
      modifies this, ebuf, Footprint(normal), Footprint(alternate)
      ensures Valid() && Shapes() == old(Shapes()) && Tried(old(Now()), old(Collected()), ebuf.Length, Whole())
    {
      hide Valid, Pane.View, Shape, SequenceDone, Now, Complete;
      OkNow();
      ghost var all := Collected();
      assert all[0] == ebuf[0];
      NulWaits(all);
      if ebuf[0] == '\0' {
        return;
      }
      var done := Interpret(ebuf[0], ebuf[elen - 1]);
      if done || elen + 1 >= ebuf.Length {
        CancelEscape();
      }
    }

    // put_wc
    method PutChar(wc: int)
      requires Valid()
      modifies this, ebuf, Footprint(normal), Footprint(alternate)
      ensures Valid() && Shapes() == old(Shapes())
      ensures Steps(old(Whole()), wc, ebuf.Length, width, glyph, Whole())
    {
      hide Valid, Pane.View, Shape, Tried, ControlDone, PrintDone, Now;
      OkNow();
      if escaped {
        if elen + 1 < ebuf.Length {
          Store((wc % 256) as char);
          TryInterpret();
        } else {
          CancelEscape();
        }
      } else if 0 <= wc < 32 || 128 <= wc < 160 {
        ControlChar(wc);
      } else {
        PrintChar(wc);
      }
    }

    // The character in the set that is in use, and its width.
    method PrintChar(wc: int)
      requires Valid()
      modifies Footprint(active)
      ensures Valid() && Shapes() == old(Shapes()) && PrintDone(old(Now()), wc, width, glyph, Now())
    {
      hide Valid, Pane.View, Shape, Printed, Ok;
      WidthsAtMostTwo();
      var text, columns := wc, 1;
      if graph {
        if 0x41 <= wc <= 0x7e {
          var gc := glyph(wc);
          if gc != 0 {
            text := gc;
          }
        }
      } else {
        columns := width(wc);
        if columns < 1 {
          columns := 1;
        }
      }
      ActivePrint(text, columns);
    }

    lemma WidthsAtMostTwo()
      requires Valid()
      ensures forall c :: width(c) <= 2
    {
    }

    method Store(c: char)
      requires Valid() && elen + 1 < ebuf.Length
      modifies `elen, ebuf
      ensures Valid() && elen == old(elen) + 1 && Now() == old(Now()) && Collected() == old(Collected()) + [c]
    {
      hide Pane.Valid, Pane.View;
      ebuf[elen] := c;
      elen := elen + 1;
      ebuf[elen] := '\0';
    }

    // Any stream of characters, one step after the other.
    method Feed(stream: seq<int>) returns (ghost trace: seq<Machine>)
      requires Valid()
      modifies this, ebuf, Footprint(normal), Footprint(alternate)
      ensures Valid() && Shapes() == old(Shapes()) && IsTrace(trace, stream, ebuf.Length, width, glyph)
      ensures trace[0] == old(Whole()) && trace[|stream|] == Whole()
    {
      hide Valid, Pane.View, Now, Steps;
      OkNow();
      trace := [Whole()];
      for i := 0 to |stream|
        invariant Valid() && Shapes() == old(Shapes()) && IsTrace(trace, stream[..i], ebuf.Length, width, glyph)
        invariant trace[0] == old(Whole()) && elen <= ebuf.Length && trace[i] == Whole()
      {
        PutChar(stream[i]);
        OkNow();
        TraceNext(trace, stream, i, ebuf.Length, width, glyph, Whole());
        trace := trace + [Whole()];
      }
      assert stream[..|stream|] == stream;
    }

    // ESC and a whole sequence, fed one by one, have the effect of the sequence.
    method Sequence(s: string)
      requires Valid() && !escaped && IsSequence(s) && |s| + 1 < ebuf.Length
      modifies this, ebuf, Footprint(normal), Footprint(alternate)
      ensures Valid() && Shapes() == old(Shapes()) && !escaped && SequenceDone(old(Now()), s, Now())
    {
      hide Valid, Pane.View, Now, Steps, Complete, SequenceDone;
      OkNow();
      ghost var was := Now();
      ghost var before := Whole();
      PutChar(27);
      OkNow();
      EscapeStarts(before, ebuf.Length, width, glyph, Whole());
      for i := 0 to |s| - 1
        invariant Valid() && Shapes() == old(Shapes()) && elen < ebuf.Length && Whole() == Machine(was, true, s[..i])
      {
        before := Whole();
        PutChar(s[i] as int);
        OkNow();
        StillCollecting(before, s, i, ebuf.Length, width, glyph, Whole());
      }
      before := Whole();
      PutChar(s[|s| - 1] as int);
      OkNow();
      NowComplete(before, s, ebuf.Length, width, glyph, Whole());
    }

    // ESC and one more character.
    method EscapeSequence(c: char)
      requires Valid() && !escaped && c in "78DMEH"
      modifies this, ebuf, Footprint(normal), Footprint(alternate)
      ensures Valid() && Shapes() == old(Shapes()) && !escaped && EscapeDone(old(Now()), c, Now())
    {
      hide Valid, Pane.View, Now, EscapeDone;
      TenBytes();
      Sequence([c]);
    }

    lemma TenBytes()
      requires Valid()
      ensures 10 < ebuf.Length
    {
    }

    // ESC [, parameters and a final character. The parameters are read by the scanner, and the sequence has its effect.
    method ControlSequence(text: string, verb: char)
      requires Valid() && !escaped && |text| + 3 < ebuf.Length && Parameters(text) && IsEnder(verb)
      modifies this, ebuf, Footprint(normal), Footprint(alternate)
      ensures Valid() && Shapes() == old(Shapes()) && !escaped
      ensures CsiActed(old(Now()), false, verb, CsiParams.Scanned(text), Now())
    {
      hide Valid, Pane.View, Now, CsiActed, CsiDone, CsiParams.Scanned;
      IsCsi("[", text, verb);
      Sequence("[" + text + [verb]);
      CsiPlain(old(Now()), "[", text, verb, Now());
    }

    // ESC [ ?, private modes, and h to set them or l to reset them.
    method PrivateSequence(text: string, verb: char)
      requires Valid() && !escaped && |text| + 4 < ebuf.Length && Parameters(text) && verb in "hl"
      modifies this, ebuf, Footprint(normal), Footprint(alternate)
      ensures Valid() && Shapes() == old(Shapes()) && !escaped
      ensures match CsiParams.Scanned(text)
        case Params(values) => Now() == PrivateAll(old(Now()), values, verb == 'h')
        case TooLong => Now() == old(Now())
    {
      hide Valid, Pane.View, Now, PrivateAll, CsiDone, CsiParams.Scanned;
      IsCsi("[?", text, verb);
      Sequence("[?" + text + [verb]);
      CsiPlain(old(Now()), "[?", text, verb, Now());
    }

    // DECSC, any stream, and DECRC: the pen and the character set are those that were saved last, by the DECSC or by
    // what has erased the display since.
    method SaveAndRestore(stream: seq<int>) returns (ghost trace: seq<Machine>, ghost since: seq<Save>)
      requires Valid() && !escaped
      modifies this, ebuf, Footprint(normal), Footprint(alternate)
      ensures Valid() && IsTrace(trace, stream, ebuf.Length, width, glyph)
      ensures EscapeDone(old(Now()), '7', trace[0].state) && !trace[0].escaped
      ensures var was, end := old(Now()), trace[|stream|];
        && end.state.saves == was.saves + [Save(was.onAlternate, Here(was).pen, was.sets.graph)] + since
        && (end.escaped ==> Whole() == end)
        && (!end.escaped ==> !escaped && EscapeDone(end.state, '8', Now()))
        && (!end.escaped && end.state.onAlternate == was.onAlternate ==>
              && Here(Now()).pen == LastPen(since, was.onAlternate, Here(was).pen)
              && Now().sets.graph == LastGraph(since, was.sets.graph))
    {
      hide Valid, Pane.View, Now, EscapeDone, LastPen, LastGraph, Steps;
      EscapeSequence('7');
      OkNow();
      trace := Feed(stream);
      OkNow();
      since := SavedLast(trace, stream, ebuf.Length, width, glyph, |stream|);
      if !escaped {
        EscapeSequence('8');
        OkNow();
      }
      Restored(old(Now()), trace[0].state, since, trace[|stream|].state, Now());
    }

    // A full-screen program: it switches to the alternate screen, runs, and switches back. The
    // normal screen is as before, but its cursor is wherever it was saved last, since 1049 does
    // not save it.
    method Session(stream: seq<int>) returns (ghost trace: seq<Machine>)
      requires Valid() && !escaped && active == normal
      modifies this, ebuf, Footprint(normal), Footprint(alternate)
      ensures Valid() && IsTrace(trace, stream, ebuf.Length, width, glyph)
      ensures trace[0] == Machine(PrivateOne(old(Now()), 1049, true), false, [])
      ensures !trace[|stream|].escaped ==> active == normal && !escaped
      ensures !trace[|stream|].escaped && (forall i :: 0 <= i <= |stream| ==> trace[i].state.onAlternate) ==>
        normal.View() == CursorKept(old(normal.View()), false, relative)
    {
      hide Valid, Pane.View, CursorKept, Switched, Steps, PrivateOne;
      OkNow();
      ghost var s := Now();
      Scanned1049();
      TenBytes();
      PrivateSequence("1049", 'h');
      OkNow();
      trace := Feed(stream);
      OkNow();
      if !escaped {
        ghost var t := Now();
        PrivateSequence("1049", 'l');
        OkNow();
        BackAgain(s, trace, stream, ebuf.Length, width, glyph, Now());
      }
    }

    // When such a program leaves no trace at all.
    lemma CursorSurvives(relative: bool)
      requires Valid()
      ensures var s := normal.View();
        CursorKept(s, false, relative) == s <==>
          Within(s.savedRow, if relative then s.top else 0, if relative then s.bot else |s.rows|) == s.row
          && Within(s.savedCol, 0, s.cols) == s.col
    {
    }
  }

  // The last of them on a screen.
  ghost predicate IsLast(since: seq<Save>, alternate: bool, i: nat) {
    i < |since| && since[i].alternate == alternate && forall j :: i < j < |since| ==> since[j].alternate != alternate
  }

  // The pen comes back exactly if the last of them on the same screen, if there is one, had this pen.
  lemma {:induction false} PenComesBack(since: seq<Save>, alternate: bool, pen: Cell)
    ensures LastPen(since, alternate, pen) == pen <==>
      forall i: nat :: IsLast(since, alternate, i) ==> since[i].pen == pen
  {
    if since != [] {
      var n, before := |since| - 1, since[..|since| - 1];
      if since[n].alternate == alternate {
        assert IsLast(since, alternate, n);
      } else {
        PenComesBack(before, alternate, pen);
        forall i: nat ensures IsLast(since, alternate, i) <==> IsLast(before, alternate, i) {
          assert i < n ==> since[i] == before[i];
        }
        assert forall i: nat :: IsLast(before, alternate, i) ==> since[i] == before[i];
      }
    }
  }

  lemma CsiPens(was: State, verb: char, params: seq<int>, now: State)
    requires CsiActed(was, false, verb, CsiParams.Params(params), now)
    ensures verb == 'J' ==> Here(now).savedPen == Here(now).pen == Here(was).pen
    ensures verb == 'm' ==> Here(now).pen == if params == [] then BLANK else Colored(Here(was).pen, params)
  {
    hide Ok, DisplayErased, Colored;
    if verb == 'J' {
      SavedByCsi(Here(was), verb, params, was.modes.relative, Here(now));
    }
  }

  // DECSC, bold, ED and DECRC: the pen is bold, although it was not when it was saved.
  method SavedPenLost() returns (t: Vt)
    ensures t.Valid() && t.active.View().pen == BLANK.(attr := {Bold})
  {
    hide Pane.Valid, Vt.Valid, Pane.View, Vt.Now, EscapeDone, CsiActed, Colored;
    t := new Vt(1, 2, 0, 256, c => 1, c => 0);
    OneParameter();
    t.OkNow();
    ghost var s := t.Now();
    t.EscapeSequence('7');
    ghost var u := t.Now();
    EscapePens(s, '7', u);
    t.ControlSequence("1", 'm');
    ghost var v := t.Now();
    CsiPens(u, 'm', [1], v);
    t.ControlSequence("", 'J');
    ghost var w := t.Now();
    CsiPens(v, 'J', [], w);
    t.EscapeSequence('8');
    EscapePens(w, '8', t.Now());
    t.OkNow();
  }

  lemma EscapePens(was: State, c: char, now: State)
    requires EscapeDone(was, c, now)
    ensures (c == '7' ==> Here(now).pen == Here(was).pen) && (c == '8' ==> Here(now).pen == Here(was).savedPen)
  {
    hide Ok, EscapeEffect;
    SavedByEscape(Here(was), c, was.modes.relative, Here(now));
  }

  lemma OneParameter()
    ensures CsiParams.Scanned("1") == CsiParams.Params([1]) && CsiParams.Scanned("") == CsiParams.Params([])
    ensures Colored(BLANK, [1]) == BLANK.(attr := {Bold}) && Parameters("1") && Parameters("")
  {
    assert "1"[..0] == "";
  }

  // The cursor is in the second row and was never saved: after a session it is in the first one.
  lemma CursorLost(s: Screen)
    requires Ok(s) && |s.rows| == 2 && s.row == 1 && s.savedRow == 0 && s.col == s.savedCol == 0
    ensures CursorKept(s, false, false) == s.(row := 0) && CursorKept(s, false, false) != s
  {
    assert CursorKept(s, false, false).row == 0;
  }
}
