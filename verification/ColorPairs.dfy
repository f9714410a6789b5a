/// The colour cache: which of the terminal's colour pairs holds a foreground and a background.
module ColorPairs {
  import opened Arith

  // -1 is the terminal's own default colour.
  datatype Color = Color(fg: int, bg: int)

  const BLACK_ON_BLACK := Color(0, 0)

  // How a request ends: with a pair; with pair 0, since the terminal refused the colours; in a search that goes on
  // for ever; or with colours that were never set, or that the terminal does not have.
  datatype Outcome = Done | Refused | Endless | Unset | Strays

  predicate InRange(colors: nat, c: Color) {
    -1 <= c.fg < colors && -1 <= c.bg < colors
  }

  function Hash(colors: nat, c: Color): (h: nat)
    requires InRange(colors, c)
    ensures h < (colors + 2) * (colors + 2)
  {
    var fg := if c.fg == -1 then colors else c.fg;
    var bg := if c.bg == -1 then colors + 1 else c.bg;
    MulMonotone(fg, colors + 1, colors + 2);
    fg * (colors + 2) + bg
  }

  lemma HashInjective(colors: nat, a: Color, b: Color)
    requires InRange(colors, a) && InRange(colors, b) && a != b
    ensures Hash(colors, a) != Hash(colors, b)
  {
    var fa, fb := if a.fg == -1 then colors else a.fg, if b.fg == -1 then colors else b.fg;
    Quotient(Hash(colors, a), colors + 2, fa);
    Quotient(Hash(colors, b), colors + 2, fb);
  }

  function Abs(x: int): nat {
    if x < 0 then 0 - x else x
  }

  // The pair the search looks at after k steps from c.
  function Probe(c: nat, k: nat, reserved: nat, max: nat): nat {
    if k == 0 then c
    else
      var p := Probe(c, k - 1, reserved, max) + 1;
      if p >= max then reserved + 1 else p
  }

  lemma {:induction false} ProbeInRange(c: nat, k: nat, reserved: nat, max: nat)
    requires k > 0
    ensures 1 <= Probe(c, k, reserved, max)
    ensures Probe(c, k, reserved, max) < max || Probe(c, k, reserved, max) == reserved + 1
  {
    if k > 1 {
      ProbeInRange(c, k - 1, reserved, max);
    }
  }

  // The search starts over behind the reserved pairs, so it gets to every pair that is not.
  lemma {:induction false} ProbeAhead(c: nat, k: nat, reserved: nat, max: nat)
    requires c + k < max
    ensures Probe(c, k, reserved, max) == c + k
  {
    if k > 0 {
      ProbeAhead(c, k - 1, reserved, max);
    }
  }

  // The number of steps after which it starts over.
  function Ahead(c: nat, max: nat): nat {
    if c < max then max - c else 1
  }

  lemma {:induction false} ProbeAround(c: nat, k: nat, reserved: nat, max: nat)
    requires k == 0 || reserved + 1 + k < max
    ensures Probe(c, Ahead(c, max) + k, reserved, max) == reserved + 1 + k
  {
    if k > 0 {
      ProbeAround(c, k - 1, reserved, max);
    } else if c < max {
      ProbeAhead(c, max - c - 1, reserved, max);
    }
  }

  class Cache {
    const colors: nat
    const hasDefaults: bool
    const defaults: Color
    const max: nat                 // pairs the cache may use
    const palette: array?<int>     // by hash: 0, a pair, or a reserved pair negated
    const pairs: array<Color>      // the terminal's pair table, which may hold more
    const obliging: bool           // the terminal accepts all colours that it has
    var reserved: nat
    var current: nat

    ghost predicate Shaped()
      reads pairs
    {
      && InRange(colors, defaults) && defaults.fg != -1 && defaults.bg != -1 && max <= pairs.Length
      && palette != null && palette.Length == (colors + 2) * (colors + 2)
      && forall p :: 0 <= p < pairs.Length ==> InRange(colors, pairs[p])
    }

    ghost function Entry(c: Color): int
      requires Shaped() && InRange(colors, c)
      reads palette, pairs
    {
      palette[Hash(colors, c)]
    }

    // An entry names a pair that holds exactly its colours.
    ghost predicate Agrees()
      requires Shaped()
      reads palette, pairs
    {
      forall c :: InRange(colors, c) && Entry(c) != 0 ==>
        1 <= Abs(Entry(c)) < pairs.Length && pairs[Abs(Entry(c))] == c
    }

    // Reserved pairs are entered negated; every other pair in use is entered, so no colour other
    // than the initial one is held twice.
    ghost predicate Entered()
      requires Shaped()
      reads `reserved, palette, pairs
    {
      && reserved < pairs.Length
      && (forall p :: 1 <= p <= reserved ==> Entry(pairs[p]) == 0 - p)
      && (forall c :: InRange(colors, c) && Entry(c) < 0 ==> 0 - Entry(c) <= reserved)
      && (forall p :: reserved < p < pairs.Length && pairs[p] != BLACK_ON_BLACK ==> Entry(pairs[p]) == p)
    }

    ghost predicate Valid()
      reads `reserved, palette, pairs
    {
      0 < colors && Shaped() && Agrees() && Entered()
    }

    // No pair handed out yet.
    ghost predicate Fresh()
      requires Shaped()
      reads `reserved, palette, pairs
    {
      && (forall c :: InRange(colors, c) ==> Entry(c) <= 0)
      && (forall p :: reserved < p < pairs.Length ==> pairs[p] == BLACK_ON_BLACK)
    }

    ghost predicate Evictable(p: nat)
      requires Shaped() && p < pairs.Length
      reads palette, pairs
    {
      Entry(pairs[p]) >= 0
    }

    // The pairs that the search comes back to: those behind the reserved ones or, if these take up all that the
    // cache may use, the next one alone.
    ghost predicate InTurn(p: nat)
      reads `reserved
    {
      reserved < p < pairs.Length && (p < max || p == reserved + 1)
    }

    ghost predicate SomeEvictable()
      requires Shaped()
      reads `reserved, palette, pairs
    {
      exists p :: InTurn(p) && Evictable(p)
    }

    ghost predicate Settles(p: nat)
      requires Shaped()
      reads palette, pairs
    {
      p < pairs.Length && Evictable(p)
    }

    // The search leaves the table at once, before it has read the colours of any pair.
    ghost predicate LeavesAtOnce()
      reads `reserved, `current
    {
      current + 1 >= max && reserved + 1 >= pairs.Length
    }

    method SetEntry(c: Color, v: int)
      requires Shaped() && InRange(colors, c)
      modifies palette
      ensures Shaped() && Entry(c) == v
      ensures forall d :: InRange(colors, d) && d != c ==> Entry(d) == old(Entry(d))
    {
      palette[Hash(colors, c)] := v;
      forall d | InRange(colors, d) && d != c ensures Hash(colors, d) != Hash(colors, c) {
        HashInjective(colors, d, c);
      }
    }

    // The terminal may refuse.
    method InitPair(p: nat, c: Color) returns (ok: bool)
      requires Shaped() && InRange(colors, c) && 1 <= p
      modifies pairs
      ensures Shaped()
      ensures ok ==> p < pairs.Length && pairs[..] == old(pairs[..])[p := c]
      ensures !ok ==> pairs[..] == old(pairs[..])
      ensures obliging && p < pairs.Length ==> ok
    {
      ok := *;
      if p >= pairs.Length {
        ok := false;
      } else if obliging {
        ok := true;
      }
      if ok {
        pairs[p] := c;
      }
    }

    method Lookup(c: Color) returns (v: int)
      requires Shaped() && InRange(colors, c)
      ensures v == Entry(c)
    {
      v := palette[Hash(colors, c)];
    }

    lemma SettlesInTurn(c: nat, k: nat)
      requires Valid() && k > 0 && Settles(Probe(c, k, reserved, max))
      ensures InTurn(Probe(c, k, reserved, max))
    {
      hide Entry, Agrees;
      ProbeInRange(c, k, reserved, max);
    }

    lemma Reaches(c: nat, p: nat) returns (k: nat)
      requires InTurn(p)
      ensures 0 < k <= 2 * max + 1 && Probe(c, k, reserved, max) == p
    {
      if c < p < max {
        k := p - c;
        ProbeAhead(c, k, reserved, max);
      } else {
        k := Ahead(c, max) + (p - reserved - 1);
        ProbeAround(c, p - reserved - 1, reserved, max);
      }
    }

    // The search comes to an end exactly when one of the pairs in its turn can be evicted.
    lemma SearchEnds()
      requires Valid()
      ensures SomeEvictable() <==> exists k: nat :: k > 0 && Settles(Probe(current, k, reserved, max))
    {
      hide Hash, Entry, Agrees, Entered;
      if SomeEvictable() {
        var p :| InTurn(p) && Evictable(p);
        var k := Reaches(current, p);
        assert Settles(Probe(current, k, reserved, max));
      }
      if k: nat :| k > 0 && Settles(Probe(current, k, reserved, max)) {
        SettlesInTurn(current, k);
      }
    }

    lemma NeverSettles(c: nat)
      requires Shaped() && forall k :: 0 < k <= 2 * max + 1 ==> !Settles(Probe(c, k, reserved, max))
      ensures !SomeEvictable()
    {
      hide Entry, Shaped;
      if p :| InTurn(p) && Evictable(p) {
        var k := Reaches(c, p);
        assert false;
      }
    }

    // The search from c is at the current pair after k steps, and would not have ended before.
    ghost predicate FirstAt(c: nat, k: nat)
      requires Shaped()
      reads this, palette, pairs
    {
      current == Probe(c, k, reserved, max) && forall j :: 0 < j < k ==> !Settles(Probe(c, j, reserved, max))
    }

    // So many turns of the loop of vt_color_get. Outside the table pair_content fails, and the colours it was to
    // set are still those of the last pair, or not set at all.
    method Search(turns: nat) returns (found: bool, unset: bool)
      requires Valid()
      modifies `current
      ensures unset <==> turns > 0 && old(LeavesAtOnce())
      ensures found ==> SomeEvictable() && InTurn(current) && Evictable(current)
      ensures found ==> exists k :: 0 < k <= turns && FirstAt(old(current), k)
      ensures !found && !unset ==> forall k :: 0 < k <= turns ==> !Settles(Probe(old(current), k, reserved, max))
      ensures turns > 2 * max ==> (found <==> SomeEvictable())
    {
      hide Hash, Entry, Agrees, Entered;
      ghost var start := current;
      found, unset := false, false;
      var seen: Color := *;
      for i := 0 to turns
        invariant Valid() && current == Probe(start, i, reserved, max)
        invariant i > 0 ==> InRange(colors, seen) && Entry(seen) < 0 && !old(LeavesAtOnce())
        invariant forall k :: 0 < k <= i ==> !Settles(Probe(start, k, reserved, max))
      {
        current := current + 1;
        if current >= max {
          current := reserved + 1;
        }
        assert current == Probe(start, i + 1, reserved, max);
        if current < pairs.Length {
          seen := pairs[current];
        }
        if current >= pairs.Length && i == 0 {
          return false, true;
        }
        var entry := Lookup(seen);
        if entry >= 0 {
          assert Settles(current);
          SettlesInTurn(start, i + 1);
          assert FirstAt(start, i + 1);
          return true, false;
        }
      }
      if turns > 2 * max {
        NeverSettles(start);
      }
    }

    // Default colours stand in for colours that the terminal does not have (vt_color_get with
    // the terminal view's own defaults in own).
    function Resolve(own: Color, c: Color): Color {
      var fg := if c.fg >= colors then own.fg else c.fg;
      var bg := if c.bg >= colors then own.bg else c.bg;
      Color(if !hasDefaults && fg == -1 then (if own.fg != -1 then own.fg else defaults.fg) else fg,
            if !hasDefaults && bg == -1 then (if own.bg != -1 then own.bg else defaults.bg) else bg)
    }

    // What is handed out for a foreground or a background: a colour that the terminal has stays; for one that it
    // does not have the view's own default is taken; and where nothing is set, the terminal's default colours if
    // it has them, else the view's own default or the one that the terminal started with.
    ghost predicate StandsFor(got: int, asked: int, own: int, initial: int) {
      && (asked < colors && asked != -1 ==> got == asked)
      && (asked >= colors && own != -1 ==> got == own)
      && (asked == -1 || (asked >= colors && own == -1) ==>
            got == if hasDefaults then -1 else if own == -1 then initial else own)
    }

    lemma ResolvedByCases(own: Color, wanted: Color)
      ensures StandsFor(Resolve(own, wanted).fg, wanted.fg, own.fg, defaults.fg)
      ensures StandsFor(Resolve(own, wanted).bg, wanted.bg, own.bg, defaults.bg)
    {
    }

    // The pair under consideration changes hands: its old colours leave the cache.
    method Recycle(c: Color) returns (ok: bool)
      requires Valid() && InRange(colors, c) && Entry(c) == 0 && reserved < current < pairs.Length && Evictable(current)
      modifies palette, pairs
      ensures Valid()
      ensures ok ==> pairs[..] == old(pairs[..])[current := c] && Entry(c) == current
      ensures ok ==> forall d :: InRange(colors, d) && d != c ==>
        Entry(d) == if d == old(pairs[current]) then 0 else old(Entry(d))
      ensures !ok ==> pairs[..] == old(pairs[..]) && palette[..] == old(palette[..]) && !obliging
      ensures reserved < pairs.Length && forall p :: 1 <= p <= reserved ==> pairs[p] == old(pairs[p])
    {
      hide Entry, Hash;
      var was := pairs[current];
      ok := InitPair(current, c);
      if ok {
        assert forall d :: InRange(colors, d) ==> Entry(d) == old(Entry(d)) by {
          SameEntries();
        }
        SetEntry(was, 0);
        SetEntry(c, current);
        RecycledAgrees(c);
        RecycledEntered(c);
      } else {
        SameEntries();
        Untouched();
      }
    }

    // What Recycle changes.
    twostate predicate Recycled(c: Color)
      requires old(Shaped()) && Shaped() && current < pairs.Length && InRange(colors, c)
      reads this, palette, pairs
    {
      && reserved == old(reserved) && current == old(current)
      && pairs[..] == old(pairs[..])[current := c] && Entry(c) == current
      && forall d :: InRange(colors, d) && d != c ==>
           Entry(d) == if d == old(pairs[current]) then 0 else old(Entry(d))
    }

    twostate lemma RecycledAgrees(c: Color)
      requires old(Valid()) && Shaped() && InRange(colors, c) && 0 < current < pairs.Length && Recycled(c)
      ensures Agrees()
    {
      hide Entry, Entered;
      forall d | InRange(colors, d) && Entry(d) != 0
        ensures 1 <= Abs(Entry(d)) < pairs.Length && pairs[Abs(Entry(d))] == d
      {
        if d != c {
          var e := Abs(old(Entry(d)));
          assert old(pairs[e]) == d && e != current;
          assert pairs[..][e] == old(pairs[..])[e];
        }
      }
    }

    twostate lemma RecycledEntered(c: Color)
      requires old(Valid()) && Shaped() && InRange(colors, c) && old(Entry(c)) == 0
      requires reserved < current < pairs.Length && Recycled(c) && old(Evictable(current))
      ensures Entered()
      ensures reserved < pairs.Length && forall p :: 1 <= p <= reserved ==> pairs[p] == old(pairs[p])
    {
      hide Entry, Agrees;
      forall p | 1 <= p < pairs.Length && p != current ensures pairs[p] == old(pairs[p]) {
        assert pairs[..][p] == old(pairs[..])[p];
      }
    }

    twostate lemma Untouched()
      requires old(Shaped()) && reserved < pairs.Length && pairs[..] == old(pairs[..])
      ensures forall p :: 1 <= p <= reserved ==> pairs[p] == old(pairs[p])
    {
      forall p | 1 <= p <= reserved ensures pairs[p] == old(pairs[p]) {
        assert pairs[..][p] == old(pairs[..])[p];
      }
    }

    twostate lemma SameEntries()
      requires old(Shaped()) && Shaped() && palette[..] == old(palette[..])
      ensures forall d :: InRange(colors, d) ==> Entry(d) == old(Entry(d))
    {
      forall d | InRange(colors, d) ensures Entry(d) == old(Entry(d)) {
        assert Entry(d) == palette[..][Hash(colors, d)];
      }
    }

    // A pair for colours the terminal has: the one that holds them already, or the next evictable one.
    method Find(c: Color) returns (pair: nat, how: Outcome)
      requires Valid() && InRange(colors, c)
      modifies `current, palette, pairs
      ensures Valid() && !how.Strays? && (obliging ==> !how.Refused?)
      ensures how.Endless? || how.Unset? <==> old(Entry(c)) == 0 && !old(SomeEvictable())
      ensures how.Unset? <==> old(Entry(c)) == 0 && old(LeavesAtOnce())
      ensures !how.Done? ==> pair == 0 && pairs[..] == old(pairs[..]) && palette[..] == old(palette[..])
      ensures how.Done? ==> 1 <= pair < pairs.Length && pairs[pair] == c && Abs(Entry(c)) == pair
      ensures old(Entry(c)) != 0 ==>
        how.Done? && pair == Abs(old(Entry(c))) && pairs[..] == old(pairs[..]) && palette[..] == old(palette[..])
      ensures old(Entry(c)) == 0 && how.Done? ==>
        InTurn(pair) && old(Evictable(pair)) && pairs[..] == old(pairs[..])[pair := c] && Entry(c) == pair
      ensures reserved < pairs.Length && forall p :: 1 <= p <= reserved ==> pairs[p] == old(pairs[p])
      ensures old(Entry(BLACK_ON_BLACK)) >= 0 ==> Entry(BLACK_ON_BLACK) >= 0
    {
      hide Hash, Entry, Entered, Agrees;
      ReservedInTable();
      var entry := Lookup(c);
      if entry == 0 {
        // As many turns as the search takes if it ends at all.
        var found, unset := Search(2 * max + 1);
        if !found {
          return 0, if unset then Unset else Endless;
        }
        var ok := Recycle(c);
        if !ok {
          SameEntries();
          return 0, Refused;
        }
        entry := current;
      } else {
        Named(c);
      }
      pair, how := Abs(entry), Done;
    }

    lemma ReservedInTable()
      requires Valid()
      ensures reserved < pairs.Length
    {
    }

    lemma Named(c: Color)
      requires Valid() && InRange(colors, c) && Entry(c) != 0
      ensures 1 <= Abs(Entry(c)) < pairs.Length && pairs[Abs(Entry(c))] == c
    {
    }

    lemma Unnamed(c: Color)
      requires Valid() && InRange(colors, c) && forall p :: 1 <= p < pairs.Length ==> pairs[p] != c
      ensures Entry(c) == 0
    {
    }

    // vt_color_get. Without colours there is no cache and every pair is 0. The terminal view's own default
    // colours may be any; what a search for colours that the terminal does not have comes upon is not part of
    // this model.
    method Get(own: Color, wanted: Color) returns (pair: nat, how: Outcome)
      requires palette != null ==> Valid()
      modifies `current, pairs, if palette == null then {} else {palette}
      ensures palette != null ==> Valid() && (obliging ==> !how.Refused?)
      ensures var c := Resolve(own, wanted);
        && (palette == null || c == Color(-1, -1) ==> how.Done? && pair == 0 && pairs[..] == old(pairs[..]))
        && (palette != null && c != Color(-1, -1) ==>
              && (how.Strays? <==> !InRange(colors, c))
              && (InRange(colors, c) ==>
                    && (how.Endless? || how.Unset? <==> old(Entry(c)) == 0 && !old(SomeEvictable()))
                    && (how.Unset? <==> old(Entry(c)) == 0 && old(LeavesAtOnce()))
                    && (how.Done? ==> 1 <= pair < pairs.Length && pairs[pair] == c && Abs(Entry(c)) == pair)
                    && (how.Done? && old(Entry(c)) == 0 ==>
                          InTurn(pair) && pairs[..] == old(pairs[..])[pair := c] && Entry(c) == pair)))
      ensures palette != null && (!how.Done? || Resolve(own, wanted) == Color(-1, -1)) ==>
        pair == 0 && pairs[..] == old(pairs[..]) && palette[..] == old(palette[..])
      ensures palette != null ==> forall p :: 1 <= p <= reserved < pairs.Length ==> pairs[p] == old(pairs[p])
      ensures palette != null && old(Entry(BLACK_ON_BLACK)) >= 0 ==> Entry(BLACK_ON_BLACK) >= 0
    {
      hide Hash, Entry, Entered, Agrees, Evictable;
      var c := Resolve(own, wanted);
      if palette == null || c == Color(-1, -1) {
        return 0, Done;
      }
      if !InRange(colors, c) {
        return 0, Strays;
      }
      ReservedInTable();
      pair, how := Find(c);
    }

    // A pair that is not reserved can be evicted if it was handed out, or if its initial colours are not reserved.
    lemma EvictableIs(p: nat)
      requires Valid() && reserved < p < pairs.Length
      ensures Evictable(p) <==> pairs[p] != BLACK_ON_BLACK || Entry(BLACK_ON_BLACK) >= 0
    {
    }

    // While the initial colours of the table are not reserved, the search ends if there is a pair left in the table.
    lemma RoomLeft()
      requires Valid() && Entry(BLACK_ON_BLACK) >= 0
      ensures SomeEvictable() <==> reserved + 1 < pairs.Length
    {
      if reserved + 1 < pairs.Length {
        EvictableIs(reserved + 1);
        assert InTurn(reserved + 1);
      }
    }

    // Once they are reserved, it ends exactly when one of the pairs in its turn was handed out before.
    lemma NoRoomLeft()
      requires Valid() && Entry(BLACK_ON_BLACK) < 0
      ensures SomeEvictable() <==> exists p: nat :: InTurn(p) && pairs[p] != BLACK_ON_BLACK
    {
      forall p: nat | InTurn(p) ensures Evictable(p) <==> pairs[p] != BLACK_ON_BLACK {
        EvictableIs(p);
      }
    }

    // Before the first pair is handed out: the search will end exactly when there is a pair left in the table and
    // the initial colours are not reserved.
    lemma RoomAtStart()
      requires Valid() && Fresh()
      ensures SomeEvictable() <==> reserved + 1 < pairs.Length && Entry(BLACK_ON_BLACK) >= 0
    {
      hide Entry;
      if Entry(BLACK_ON_BLACK) >= 0 {
        RoomLeft();
      } else {
        NoRoomLeft();
      }
    }

    twostate lemma StaysValid()
      requires old(Valid()) && Shaped() && reserved == old(reserved)
      requires pairs[..] == old(pairs[..]) && palette[..] == old(palette[..])
      ensures Valid() && (old(Fresh()) ==> Fresh())
    {
      hide Entry;
      SameEntries();
      forall p | 0 <= p < pairs.Length ensures pairs[p] == old(pairs[p]) {
        assert pairs[p] == pairs[..][p];
        assert old(pairs[p]) == old(pairs[..])[p];
      }
    }

    // The pair next to the reserved ones becomes reserved.
    method PinNext(c: Color) returns (ok: bool)
      requires Valid() && InRange(colors, c) && Entry(c) >= 0
      modifies `reserved, palette, pairs
      ensures Shaped()
      ensures !ok ==>
        Valid() && reserved == old(reserved) && pairs[..] == old(pairs[..]) && palette[..] == old(palette[..])
      ensures obliging && old(reserved) + 1 < pairs.Length ==> ok
      ensures ok ==> reserved == old(reserved) + 1 < pairs.Length && pairs[..] == old(pairs[..])[reserved := c]
      ensures ok ==> Entry(c) == 0 - reserved && forall d :: InRange(colors, d) && d != c ==> Entry(d) == old(Entry(d))
      ensures ok ==> (Agrees() <==>
        old(pairs[..])[reserved] == c || old(Entry(pairs[reserved + 1])) != reserved)
      ensures old(Fresh()) ==> Valid() && Fresh()
    {
      hide Hash, Entry, Agrees, Entered;
      ok := InitPair(reserved + 1, c);
      SameEntries();
      if ok {
        reserved := reserved + 1;
        SetEntry(c, 0 - reserved);
        PinnedAgrees(c);
        if old(Fresh()) {
          PinnedFresh(c);
        }
      } else {
        StaysValid();
      }
    }

    twostate predicate Pinned(c: Color)
      requires old(Shaped()) && Shaped() && InRange(colors, c)
      reads this, palette, pairs
    {
      && reserved == old(reserved) + 1 < pairs.Length && pairs[..] == old(pairs[..])[reserved := c]
      && Entry(c) == 0 - reserved && old(Entry(c)) >= 0
      && forall d :: InRange(colors, d) && d != c ==> Entry(d) == old(Entry(d))
    }

    twostate lemma PinnedAgrees(c: Color)
      requires old(Valid()) && Shaped() && InRange(colors, c) && Pinned(c)
      ensures Agrees() <==> old(pairs[..])[reserved] == c || old(Entry(pairs[reserved + 1])) != reserved
    {
      hide Entry;
      var was := old(pairs[..])[reserved];
      if was != c && old(Entry(was)) == reserved {
        assert Entry(was) == reserved && pairs[reserved] == pairs[..][reserved] == c;
        assert !Agrees();
      } else {
        forall d | InRange(colors, d) && Entry(d) != 0
          ensures 1 <= Abs(Entry(d)) < pairs.Length && pairs[Abs(Entry(d))] == d
        {
          var e := Abs(Entry(d));
          assert e < pairs.Length;
          assert pairs[e] == pairs[..][e];
          if d != c {
            assert old(pairs[e]) == d && old(pairs[e]) == old(pairs[..])[e];
            assert e != reserved;
          }
        }
      }
    }

    twostate lemma PinnedFresh(c: Color)
      requires old(Valid()) && Shaped() && InRange(colors, c) && Pinned(c) && old(Fresh())
      ensures Valid() && Fresh()
    {
      hide Entry;
      PinnedAgrees(c);
      forall p | 0 <= p < pairs.Length ensures pairs[p] == if p == reserved then c else old(pairs[p]) {
        assert pairs[p] == pairs[..][p];
        assert old(pairs[p]) == old(pairs[..])[p];
      }
    }

    lemma Held(c: Color)
      requires Valid() && InRange(colors, c) && Entry(c) < 0
      ensures 1 <= 0 - Entry(c) <= reserved < pairs.Length && pairs[0 - Entry(c)] == c
    {
    }

    twostate lemma OthersHeld(c: Color)
      requires old(Shaped()) && old(reserved) <= reserved <= old(reserved) + 1
      requires pairs[..] == old(pairs[..])
        || (reserved == old(reserved) + 1 < pairs.Length && pairs[..] == old(pairs[..])[reserved := c])
      ensures forall p :: 1 <= p <= old(reserved) < pairs.Length ==> pairs[p] == old(pairs[p])
    {
      forall p | 1 <= p <= old(reserved) < pairs.Length ensures pairs[p] == old(pairs[p]) {
        assert pairs[p] == pairs[..][p];
        assert old(pairs[p]) == old(pairs[..])[p];
      }
    }

    method Pin(c: Color) returns (pair: nat, refused: bool)
      requires Valid() && InRange(colors, c)
      modifies `reserved, palette, pairs
      ensures Shaped()
      ensures refused ==>
        Valid() && reserved == old(reserved) && pairs[..] == old(pairs[..]) && palette[..] == old(palette[..])
      ensures obliging && refused ==> reserved + 1 >= pairs.Length
      ensures !refused ==> forall d :: InRange(colors, d) && d != c ==> Entry(d) == old(Entry(d))
      ensures old(Entry(c)) < 0 ==> !refused && pair == 0 - old(Entry(c)) && Valid() && reserved == old(reserved)
      ensures !refused ==> Entry(c) == 0 - pair && 1 <= pair <= reserved < pairs.Length && pairs[pair] == c
      ensures old(Entry(c)) >= 0 && !refused ==> reserved == pair == old(reserved) + 1
      ensures old(reserved) <= reserved <= old(reserved) + 1
      ensures forall p :: 1 <= p <= old(reserved) < pairs.Length ==> pairs[p] == old(pairs[p])
      ensures old(Entry(c)) >= 0 && !refused ==>
        (Agrees() <==> old(pairs[..])[pair] == c || old(Entry(pairs[reserved + 1])) != pair)
      ensures old(Fresh()) ==> Valid() && Fresh()
      ensures old(Fresh()) && c != BLACK_ON_BLACK ==> Entry(BLACK_ON_BLACK) == old(Entry(BLACK_ON_BLACK))
    {
      hide Hash, Entry, Agrees, Entered, Fresh;
      refused := false;
      var entry := Lookup(c);
      if entry >= 0 {
        var ok := PinNext(c);
        OthersHeld(c);
        if ok {
          entry := 0 - reserved;
        } else {
          refused := true;
          SameEntries();
        }
      } else {
        Held(c);
      }
      pair := Abs(entry);
    }

    function ToReserve(wanted: Color): Color {
      Color(if !hasDefaults && wanted.fg == -1 then defaults.fg else wanted.fg,
            if !hasDefaults && wanted.bg == -1 then defaults.bg else wanted.bg)
    }

    // A pair is reserved for the colours themselves; the view has no say.
    lemma ReservedByCases(wanted: Color)
      requires wanted.fg < colors && wanted.bg < colors
      ensures StandsFor(ToReserve(wanted).fg, wanted.fg, -1, defaults.fg)
      ensures StandsFor(ToReserve(wanted).bg, wanted.bg, -1, defaults.bg)
    {
    }

    // vt_color_reserve. It belongs before any pair is handed out: the next pair is taken even
    // when the cache still hands it out for other colours, and then the two no longer agree.
    method Reserve(wanted: Color) returns (pair: nat, refused: bool)
      requires Valid() && -1 <= wanted.fg && -1 <= wanted.bg
      modifies `reserved, palette, pairs
      ensures Shaped() && old(reserved) <= reserved <= old(reserved) + 1 && (old(Fresh()) ==> Valid() && Fresh())
      ensures forall p :: 1 <= p <= old(reserved) < pairs.Length ==> pairs[p] == old(pairs[p])
      ensures wanted.fg >= colors || wanted.bg >= colors || ToReserve(wanted) == Color(-1, -1) ==> pair == 0
      ensures refused || wanted.fg >= colors || wanted.bg >= colors || ToReserve(wanted) == Color(-1, -1) ==>
        Valid() && reserved == old(reserved) && pairs[..] == old(pairs[..]) && palette[..] == old(palette[..])
      ensures !refused && wanted.fg < colors && wanted.bg < colors && ToReserve(wanted) != Color(-1, -1) ==>
        1 <= pair <= reserved < pairs.Length && pairs[pair] == ToReserve(wanted) && Entry(pairs[pair]) == 0 - pair
      ensures obliging && refused ==> reserved + 1 >= pairs.Length
      ensures forall d :: InRange(colors, d) && d != ToReserve(wanted) ==> Entry(d) == old(Entry(d))
      ensures
        && !refused && wanted.fg < colors && wanted.bg < colors && ToReserve(wanted) != Color(-1, -1)
        && old(Entry(ToReserve(wanted))) >= 0
        ==> pair == reserved == old(reserved) + 1 && (Agrees() <==>
          old(pairs[..])[pair] == ToReserve(wanted) || old(Entry(pairs[reserved + 1])) != pair)
    {
      hide Hash, Entry, Entered, Agrees, Fresh;
      SameEntries();
      var c := ToReserve(wanted);
      if wanted.fg >= colors || wanted.bg >= colors || c == Color(-1, -1) {
        return 0, false;
      }
      pair, refused := Pin(c);
      if refused {
        SameEntries();
      }
    }

    // Reservations at the start and then any run of colours asked for: every search ends, the cache agrees
    // with the pair table throughout, and a reserved pair keeps its colours.
    method StartAndRun(reserve: seq<Color>, own: Color, wanted: seq<Color>) returns (kept: seq<nat>, hows: seq<Outcome>)
      requires palette != null && Valid() && Fresh() && Entry(BLACK_ON_BLACK) >= 0
      requires reserved + |reserve| + 1 < pairs.Length
      requires forall i :: 0 <= i < |reserve| ==>
        -1 <= reserve[i].fg && -1 <= reserve[i].bg && ToReserve(reserve[i]) != BLACK_ON_BLACK
      requires InRange(colors, own) && forall i :: 0 <= i < |wanted| ==> -1 <= wanted[i].fg && -1 <= wanted[i].bg
      modifies this, palette, pairs
      ensures Valid() && reserved <= old(reserved) + |reserve| && |kept| == |reserve|
      ensures forall i :: 0 <= i < |reserve| && kept[i] > 0 ==>
        kept[i] <= reserved < pairs.Length && pairs[kept[i]] == ToReserve(reserve[i])
      ensures |hows| == |wanted| && forall h :: h in hows ==> h.Done? || (h.Refused? && !obliging)
    {
      hide Entry, Hash, Fresh, SomeEvictable, Agrees, Entered;
      kept, hows := [], [];
      for i := 0 to |reserve|
        invariant Valid() && Fresh() && Entry(BLACK_ON_BLACK) >= 0 && reserved <= old(reserved) + i && |kept| == i
        invariant Kept(reserve, kept)
      {
        ReservedInTable();
        var pair, refused := Reserve(reserve[i]);
        ReservedInTable();
        kept := kept + [if refused then 0 else pair];
      }
      for i := 0 to |wanted|
        invariant Valid() && Entry(BLACK_ON_BLACK) >= 0 && reserved <= old(reserved) + |reserve|
        invariant Kept(reserve, kept)
        invariant |hows| == i && forall h :: h in hows ==> h.Done? || (h.Refused? && !obliging)
      {
        RoomLeft();
        var _, how := Get(own, wanted[i]);
        hows := hows + [how];
      }
    }

    ghost predicate Kept(reserve: seq<Color>, kept: seq<nat>)
      reads `reserved, pairs
    {
      forall i :: 0 <= i < |reserve| && i < |kept| && kept[i] > 0 ==>
        kept[i] <= reserved < pairs.Length && pairs[kept[i]] == ToReserve(reserve[i])
    }

    // init_colors, with the pair table as its loop leaves it: pair 0 has the terminal's colours, and where these are
    // its defaults, white on black stands in. White on black is reserved.
    constructor (colors: nat, hasDefaults: bool, pair0: Color, tablePairs: nat, limit: nat, obliging: bool)
      requires 0 < colors && 0 < tablePairs && InRange(colors, pair0) && (pair0.fg == -1 ==> 7 < colors)
      ensures Valid() && Fresh() && Entry(BLACK_ON_BLACK) == 0 && pairs.Length == tablePairs
      ensures this.colors == colors && this.hasDefaults == hasDefaults && this.obliging == obliging
      ensures max == (if tablePairs < limit then tablePairs else limit) && current == 0
      ensures reserved <= 1 && (obliging && 7 < colors && 1 < tablePairs ==> reserved == 1)
      ensures reserved == 1 < pairs.Length ==> pairs[1] == Color(7, 0)
      ensures forall d :: InRange(colors, d) && d != Color(7, 0) ==> Entry(d) == 0
      ensures fresh(pairs) && palette != null && fresh(palette)
    {
      this.colors, this.hasDefaults, this.obliging := colors, hasDefaults, obliging;
      defaults := Color(if pair0.fg == -1 then 7 else pair0.fg, if pair0.bg == -1 then 0 else pair0.bg);
      max := if tablePairs < limit then tablePairs else limit;
      palette := new int[(colors + 2) * (colors + 2)](_ => 0);
      pairs := new Color[tablePairs](i => if i == 0 then pair0 else BLACK_ON_BLACK);
      reserved, current := 0, 0;
      new;
      hide Hash, Entry, Agrees, Entered, Fresh;
      Initially();
      var _, _ := Reserve(Color(7, 0));
    }

    lemma Initially()
      requires Shaped() && 0 < colors && 0 < pairs.Length && reserved == 0
      requires forall i :: 0 <= i < palette.Length ==> palette[i] == 0
      requires forall p :: 1 <= p < pairs.Length ==> pairs[p] == BLACK_ON_BLACK
      ensures Valid() && Fresh() && forall d :: InRange(colors, d) ==> Entry(d) == 0
    {
    }
  }

  // Black on black is reserved: from then on, the first colours asked for are looked for without end.
  method BlackReserved() returns (c: Cache)
    ensures c.Valid() && !c.LeavesAtOnce()
    ensures forall k: nat :: k > 0 ==> !c.Settles(Probe(c.current, k, c.reserved, c.max))
  {
    hide Cache.Entry, Cache.Agrees, Cache.Entered, Hash;
    c := new Cache(8, true, Color(-1, -1), 64, 64, true);
    var _, _ := c.Reserve(BLACK_ON_BLACK);
    c.RoomAtStart();
    c.SearchEnds();
  }

  // A table of one pair besides pair 0, which white on black takes: the search goes on without end.
  method TableReserved() returns (pair: nat, how: Outcome)
    ensures pair == 0 && how.Endless?
  {
    hide Cache.Entry, Cache.Agrees, Cache.Entered, Hash;
    var c := new Cache(8, true, Color(-1, -1), 2, 2, true);
    c.RoomAtStart();
    pair, how := c.Get(Color(-1, -1), Color(1, 2));
  }

  // A table with no pair besides pair 0: the search goes by colours that were never set.
  method TableEmpty() returns (pair: nat, how: Outcome)
    ensures pair == 0 && how.Unset?
  {
    hide Cache.Entry, Cache.Agrees, Cache.Entered, Hash;
    var c := new Cache(8, true, Color(-1, -1), 1, 1, true);
    pair, how := c.Get(Color(-1, -1), Color(1, 2));
  }

  // A table of one pair more than the cache may use, which are all reserved: it uses that one.
  method PastLimit() returns (c: Cache, pair: nat, how: Outcome)
    ensures c.Valid() && how.Done? && pair == c.max
  {
    hide Cache.Entry, Cache.Agrees, Cache.Entered, Hash;
    c := new Cache(8, true, Color(-1, -1), 3, 2, true);
    c.RoomAtStart();
    pair, how := c.Get(Color(-1, -1), Color(1, 2));
  }

  // A reservation after a pair was handed out: the cache still has it for the colours that it held before.
  method LateReservation() returns (c: Cache, pair: nat, how: Outcome)
    ensures c.Shaped() && InRange(c.colors, Color(1, 2)) && c.Entry(Color(1, 2)) == pair
    ensures pair < c.pairs.Length && c.pairs[pair] == Color(3, 4) && !c.Agrees()
  {
    hide Cache.Entry, Cache.Agrees, Cache.Entered, Hash;
    c := new Cache(8, true, Color(-1, -1), 3, 3, true);
    c.RoomAtStart();
    pair, how := c.Get(Color(-1, -1), Color(1, 2));
    c.Unnamed(Color(3, 4));
    var _, _ := c.Reserve(Color(3, 4));
  }
}
