/// The numeric parameters of a control sequence (section 5.4 of ECMA-48): what the scanner makes
/// of them, against the fields between the separators.
module CsiParams {
  const SEPARATOR := ';'
  const MOST := 16  // parameters that the interpreter has room for

  ghost predicate IsDigit(c: char) {
    c in "0123456789"
  }

  lemma DigitRange(c: char)
    ensures IsDigit(c) <==> '0' <= c <= '9'
  {
  }

  function Digit(c: char): int {
    c as int - '0' as int
  }

  datatype Scan = Params(values: seq<int>) | TooLong

  // One character of the scanner's loop.
  function Step(scan: Scan, c: char): Scan {
    if scan.TooLong? then TooLong
    else if c == SEPARATOR then
      if |scan.values| >= MOST then TooLong else Params(scan.values + [0])
    else if '0' <= c <= '9' then
      var vs := if scan.values == [] then [0] else scan.values;
      Params(vs[|vs| - 1 := vs[|vs| - 1] * 10 + Digit(c)])
    else scan
  }

  ghost function Scanned(s: string): Scan {
    if s == [] then Params([]) else Step(Scanned(s[..|s| - 1]), s[|s| - 1])
  }

  lemma NothingScanned(s: string)
    ensures Scanned(s[..0]) == Params([])
  {
  }

  // The scanner's loop, one character further.
  lemma ScannedNext(s: string, k: nat)
    requires k < |s|
    ensures Scanned(s[..k + 1]) == Step(Scanned(s[..k]), s[k])
  {
    assert s[..k + 1][..k] == s[..k];
  }

  lemma {:induction false} TooLongStays(s: string, k: nat)
    requires k <= |s| && Scanned(s[..k]).TooLong?
    ensures Scanned(s).TooLong?
    decreases |s| - k
  {
    if k < |s| {
      ScannedNext(s, k);
      TooLongStays(s, k + 1);
    } else {
      assert s[..k] == s;
    }
  }

  // The fields between the separators.
  ghost function Fields(s: string): (f: seq<string>)
    ensures f != []
  {
    if s == [] then [[]]
    else
      var f, c := Fields(s[..|s| - 1]), s[|s| - 1];
      if c == SEPARATOR then f + [[]] else f[|f| - 1 := f[|f| - 1] + [c]]
  }

  ghost function Joined(f: seq<string>): string
    requires f != []
  {
    if |f| == 1 then f[0] else Joined(f[..|f| - 1]) + [SEPARATOR] + f[|f| - 1]
  }

  // The fields are the only way to split the text at its separators.
  lemma {:induction false} FieldsSplit(s: string)
    ensures Joined(Fields(s)) == s
    ensures forall i :: 0 <= i < |Fields(s)| ==> SEPARATOR !in Fields(s)[i]
  {
    if s != [] {
      var before, c := s[..|s| - 1], s[|s| - 1];
      var f := Fields(before);
      FieldsSplit(before);
      assert s == before + [c];
      assert Fields(s)[..|Fields(s)| - 1] == if c == SEPARATOR then f else f[..|f| - 1];
    }
  }

  // The decimal number in a field, 0 if it has no digits.
  ghost function Value(field: string): int {
    if field == [] then 0
    else
      var v, c := Value(field[..|field| - 1]), field[|field| - 1];
      if IsDigit(c) then v * 10 + Digit(c) else v
  }

  ghost function Values(f: seq<string>): (vs: seq<int>)
    ensures |vs| == |f|
  {
    seq(|f|, i requires 0 <= i < |f| => Value(f[i]))
  }

  ghost predicate Silent(s: string) {
    forall c :: c in s ==> c != SEPARATOR && !IsDigit(c)
  }

  // Digits come before the first separator.
  ghost predicate StartsWithDigits(s: string) {
    exists c :: c in Fields(s)[0] && IsDigit(c)
  }

  // What the scanner really takes as the parameter text: an empty first field gets lost.
  ghost function Effective(s: string): (f: seq<string>) {
    if Silent(s) then [] else if StartsWithDigits(s) then Fields(s) else Fields(s)[1..]
  }

  lemma ValuesExtended(f: seq<string>, c: char)
    requires f != [] && IsDigit(c)
    ensures var g, vs := f[|f| - 1 := f[|f| - 1] + [c]], Values(f);
      Values(g) == vs[|vs| - 1 := vs[|vs| - 1] * 10 + Digit(c)]
  {
    assert (f[|f| - 1] + [c])[..|f[|f| - 1]|] == f[|f| - 1];
  }

  lemma ValuesUnchanged(f: seq<string>, c: char)
    requires f != [] && !IsDigit(c)
    ensures Values(f[|f| - 1 := f[|f| - 1] + [c]]) == Values(f)
  {
    assert (f[|f| - 1] + [c])[..|f[|f| - 1]|] == f[|f| - 1];
  }

  lemma {:induction false} Separators(s: string)
    ensures SEPARATOR !in s ==> Fields(s) == [s]
    ensures SEPARATOR in s ==> |Fields(s)| > 1
  {
    if s != [] {
      var before := s[..|s| - 1];
      assert s == before + [s[|s| - 1]];
      Separators(before);
    }
  }

  lemma {:induction false} SilentIsZero(s: string)
    requires Silent(s)
    ensures Value(s) == 0
  {
    if s != [] {
      SilentIsZero(s[..|s| - 1]);
    }
  }

  lemma SilentExtended(s: string, c: char)
    ensures Silent(s + [c]) <==> Silent(s) && c != SEPARATOR && !IsDigit(c)
  {
    assert c in s + [c] && forall x :: x in s ==> x in s + [c];
  }

  // One more character of the text, in the fields that count.
  lemma EffectiveExtended(s: string, c: char)
    ensures var e, e' := Effective(s), Effective(s + [c]);
      if c == SEPARATOR then e' == e + [[]]
      else if Silent(s) then e' == if IsDigit(c) then [s + [c]] else []
      else e != [] && e' == e[|e| - 1 := e[|e| - 1] + [c]]
  {
    var t := s + [c];
    assert t[..|t| - 1] == s;
    Separators(s);
    SilentExtended(s, c);
    var f, f' := Fields(s), Fields(t);
    assert f'[0] == if c == SEPARATOR || |f| > 1 then f[0] else f[0] + [c];
    if Silent(s) {
      assert f == [s] && forall x :: x in s + [c] && IsDigit(x) ==> x == c;
      assert IsDigit(c) ==> c in f'[0];
    } else {
      if SEPARATOR !in s {
        assert StartsWithDigits(s);
      }
      assert StartsWithDigits(t) <==> StartsWithDigits(s);
    }
  }

  lemma ValuesSeparated(f: seq<string>)
    ensures Values(f + [[]]) == Values(f) + [0]
  {
  }

  lemma FirstDigit(s: string, c: char)
    requires Silent(s)
    ensures Effective(s) == [] && Values([s + [c]]) == if IsDigit(c) then [Digit(c)] else [0]
  {
    SilentIsZero(s);
    assert (s + [c])[..|s|] == s;
  }

  lemma NothingEffective()
    ensures Effective([]) == [] && Values([]) == []
  {
  }

  // The scanner: the values of the fields that count, as long as there is room for them.
  lemma {:induction false} ScannedIs(s: string)
    ensures Scanned(s) == if |Effective(s)| <= MOST then Params(Values(Effective(s))) else TooLong
  {
    hide Effective, Value, Silent, IsDigit;
    if s == [] {
      NothingEffective();
    } else {
      var before, c := s[..|s| - 1], s[|s| - 1];
      assert s == before + [c];
      ScannedIs(before);
      EffectiveExtended(before, c);
      DigitRange(c);
      var e := Effective(before);
      if c == SEPARATOR {
        ValuesSeparated(e);
      } else if Silent(before) {
        FirstDigit(before, c);
      } else if IsDigit(c) {
        ValuesExtended(e, c);
      } else {
        ValuesUnchanged(e, c);
      }
    }
  }

  // The standard's reading: no parameters without a digit or a separator, and otherwise one for each field, where
  // an empty one stands for 0.
  ghost function Standard(s: string): (vs: seq<int>) {
    if Silent(s) then [] else Values(Fields(s))
  }

  // When the scanner agrees with it: there are no parameters at all, or the first one has a digit and there is room.
  lemma ScannedExactly(s: string)
    ensures Scanned(s) == Params(Standard(s)) <==> Silent(s) || (StartsWithDigits(s) && |Fields(s)| <= 16)
  {
    ScannedIs(s);
    if Silent(s) {
      NothingEffective();
    }
  }

  // ESC [ ; 5 H goes to row 5, not to column 5.
  lemma EmptyFirstFieldIsLost()
    ensures Standard(";5") == [0, 5] && Scanned(";5") == Params([5])
  {
    var s := ";5";
    assert s[0] == SEPARATOR && s[0] in s;
    assert s[..1] == ";" && s[..1][..0] == [];
    assert Fields(s[..1]) == [[], []];
    var f := Fields(s[..1]);
    assert f[1] + "5" == "5";
    assert Fields(s) == f[1 := f[1] + "5"] == [[], "5"];
    assert Value("5") == 5 by {
      assert "5"[..0] == [];
    }
    assert Scanned(s[..1]) == Params([0]);
  }
}
