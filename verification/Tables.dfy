/// Tables of records, indexed by every field: for each value of a field a ring of the records
/// that carry it, and listeners bound to one of them.
module Tables {
  predicate NoTwice<T(==)>(s: seq<T>) {
    forall i, j :: 0 <= i < j < |s| ==> s[i] != s[j]
  }

  // An entry of a record in the ring of one of its values.
  class Ventry {
    const rec: TblRec
    const val: TblVal
    var prev: Ventry?
    var next: Ventry?

    constructor (rec: TblRec, val: TblVal)
      ensures this.rec == rec && this.val == val
    {
      this.rec, this.val := rec, val;
      prev, next := null, null;
    }
  }

  class TblRec {
    ghost const row: map<string, string>  // what the record holds, by field
    const flds: seq<string>
    var vals: seq<TblVal?>
    var vlist: seq<Ventry?>

    constructor (flds: seq<string>, data: seq<string>)
      requires |flds| <= |data|
      ensures this.flds == flds && row == Row(flds, data) && vals == [] && vlist == []
    {
      this.flds, row, vals, vlist := flds, Row(flds, data), [], [];
    }
  }

  ghost function Row(flds: seq<string>, data: seq<string>): map<string, string>
    requires |flds| <= |data|
  {
    if flds == [] then map[] else Row(flds[..|flds| - 1], data)[flds[|flds| - 1] := data[|flds| - 1]]
  }

  ghost predicate Carries(r: TblRec, f: string, k: string) {
    f in r.row && r.row[f] == k
  }

  // The records, oldest first, that carry a value in a field.
  ghost function Matching(rs: seq<TblRec>, f: string, k: string): seq<TblRec> {
    if rs == [] then []
    else Matching(rs[..|rs| - 1], f, k) + if Carries(rs[|rs| - 1], f, k) then [rs[|rs| - 1]] else []
  }

  ghost function Others(rs: seq<TblRec>, f: string, k: string): seq<TblRec> {
    if rs == [] then []
    else Others(rs[..|rs| - 1], f, k) + if Carries(rs[|rs| - 1], f, k) then [] else [rs[|rs| - 1]]
  }

  ghost function Without(rs: seq<TblRec>, r: TblRec): seq<TblRec> {
    if rs == [] then [] else Without(rs[..|rs| - 1], r) + if rs[|rs| - 1] == r then [] else [rs[|rs| - 1]]
  }

  ghost predicate AreMatching(s: seq<TblRec>, rs: seq<TblRec>, f: string, k: string) {
    && (forall r :: r in s ==> r in rs && Carries(r, f, k))
    && (forall r :: r in rs && Carries(r, f, k) ==> r in s)
  }

  ghost predicate AllBut(s: seq<TblRec>, rs: seq<TblRec>, r: TblRec) {
    && (forall x :: x in s ==> x in rs && x != r)
    && (forall x :: x in rs && x != r ==> x in s)
  }

  lemma LastOf<T>(s: seq<T>, x: T)
    ensures (s + [x])[..|s|] == s && s + [] == s
  {
  }

  lemma {:induction false} MatchingWithout(rs: seq<TblRec>, r: TblRec, f: string, k: string)
    ensures Matching(Without(rs, r), f, k) == Without(Matching(rs, f, k), r)
  {
    if rs != [] {
      var b, l := rs[..|rs| - 1], rs[|rs| - 1];
      MatchingWithout(b, r, f, k);
      LastOf(Without(b, r), l);
      LastOf(Matching(b, f, k), l);
    }
  }

  lemma {:induction false} MatchingIn(rs: seq<TblRec>, f: string, k: string)
    ensures AreMatching(Matching(rs, f, k), rs, f, k)
    ensures NoTwice(rs) ==> NoTwice(Matching(rs, f, k))
  {
    if rs != [] {
      var b := rs[..|rs| - 1];
      assert rs == b + [rs[|rs| - 1]];
      MatchingIn(b, f, k);
    }
  }

  lemma {:induction false} WithoutIn(rs: seq<TblRec>, r: TblRec)
    ensures AllBut(Without(rs, r), rs, r)
    ensures NoTwice(rs) ==> NoTwice(Without(rs, r))
    ensures r !in rs ==> Without(rs, r) == rs
  {
    if rs != [] {
      var b := rs[..|rs| - 1];
      assert rs == b + [rs[|rs| - 1]];
      WithoutIn(b, r);
      assert forall j :: 0 <= j < |b| ==> rs[j] == b[j];
      assert NoTwice(rs) ==> rs[|b|] !in b;
    }
  }

  lemma {:induction false} WithoutAt(rs: seq<TblRec>, i: nat)
    requires i < |rs| && NoTwice(rs)
    ensures Without(rs, rs[i]) == rs[..i] + rs[i + 1..]
  {
    var b, l := rs[..|rs| - 1], rs[|rs| - 1];
    assert rs == b + [l];
    if i < |b| {
      WithoutAt(b, i);
      assert b[..i] + b[i + 1..] + [l] == rs[..i] + rs[i + 1..];
    } else {
      WithoutIn(b, l);
      assert rs[..i] + rs[i + 1..] == b;
    }
  }

  // Taking out the matching records one by one leaves the others.
  lemma {:induction false} OthersWithout(rs: seq<TblRec>, r: TblRec, f: string, k: string)
    requires Carries(r, f, k)
    ensures Others(Without(rs, r), f, k) == Others(rs, f, k)
  {
    if rs != [] {
      var b, l := rs[..|rs| - 1], rs[|rs| - 1];
      OthersWithout(b, r, f, k);
      LastOf(Without(b, r), l);
    }
  }

  lemma {:induction false} NoneMatching(rs: seq<TblRec>, f: string, k: string)
    requires Matching(rs, f, k) == []
    ensures Others(rs, f, k) == rs
  {
    if rs != [] {
      NoneMatching(rs[..|rs| - 1], f, k);
    }
  }

  function Succ(i: nat, n: nat): nat
    requires i < n
  {
    if i + 1 == n then 0 else i + 1
  }

  function Pred(i: nat, n: nat): nat
    requires i < n
  {
    if i == 0 then n - 1 else i - 1
  }

  lemma RingWithout<T>(s: seq<T>, i: nat)
    requires i < |s| && NoTwice(s)
    ensures NoTwice(s[..i] + s[i + 1..]) && forall x :: x in s[..i] + s[i + 1..] ==> x in s
  {
  }

  lemma AddedOnce<T>(s: seq<T>, x: T)
    requires NoTwice(s) && x !in s
    ensures NoTwice(s + [x])
  {
  }

  // The links after an element is taken out, by position.
  lemma NextWithout<T>(s: seq<T>, nexts: seq<T>, i: nat)
    requires i < |s| == |nexts| && |s| > 1
    requires forall o :: 0 <= o < |s| ==> nexts[o] == s[if o == Pred(i, |s|) then Succ(i, |s|) else Succ(o, |s|)]
    ensures var r, rn := s[..i] + s[i + 1..], nexts[..i] + nexts[i + 1..];
      forall j :: 0 <= j < |r| ==> rn[j] == r[Succ(j, |r|)]
  {
  }

  lemma PrevWithout<T>(s: seq<T>, prevs: seq<T>, i: nat)
    requires i < |s| == |prevs| && |s| > 1
    requires forall o :: 0 <= o < |s| ==> prevs[o] == s[if o == Succ(i, |s|) then Pred(i, |s|) else Pred(o, |s|)]
    ensures var r, rp := s[..i] + s[i + 1..], prevs[..i] + prevs[i + 1..];
      forall j :: 0 <= j < |r| ==> rp[j] == r[Pred(j, |r|)]
  {
  }

  // The links after an element is added at the end, by position.
  lemma NextWith<T>(s: seq<T>, x: T, nexts: seq<T>)
    requires s != [] && |nexts| == |s| + 1 && nexts[|s|] == s[0]
    requires forall o :: 0 <= o < |s| ==> nexts[o] == if o == |s| - 1 then x else s[Succ(o, |s|)]
    ensures forall j :: 0 <= j < |nexts| ==> nexts[j] == (s + [x])[Succ(j, |nexts|)]
  {
  }

  lemma PrevWith<T>(s: seq<T>, x: T, prevs: seq<T>)
    requires s != [] && |prevs| == |s| + 1 && prevs[|s|] == s[|s| - 1]
    requires forall o :: 0 <= o < |s| ==> prevs[o] == if o == 0 then x else s[Pred(o, |s|)]
    ensures forall j :: 0 <= j < |prevs| ==> prevs[j] == (s + [x])[Pred(j, |prevs|)]
  {
  }

  // A value of a field, with the circular list of its entries in the order they came.
  class TblVal {
    const key: string
    const fld: TblFld
    var rlist: Ventry?
    var count: int
    ghost var ring: seq<Ventry>

    ghost predicate Circular()
      reads this, set e | e in ring
    {
      Linked() && rlist == ring[0]
    }

    ghost predicate Linked()
      reads `ring, set e | e in ring
    {
      && ring != [] && NoTwice(ring)
      && (forall i :: 0 <= i < |ring| ==> ring[i].val == this)
      && (forall i {:trigger ring[i].next} :: 0 <= i < |ring| ==> ring[i].next == ring[Succ(i, |ring|)])
      && (forall i {:trigger ring[i].prev} :: 0 <= i < |ring| ==> ring[i].prev == ring[Pred(i, |ring|)])
    }

    ghost predicate Valid()
      reads this, set e | e in ring
    {
      Circular() && count == |ring|
    }

    constructor (key: string, fld: TblFld)
      ensures this.key == key && this.fld == fld && rlist == null && count == 0 && ring == []
    {
      this.key, this.fld := key, fld;
      rlist, count, ring := null, 0, [];
    }

    // new_entry, for the first record with the value.
    method First(rec: TblRec) returns (ent: Ventry)
      requires ring == []
      modifies this
      ensures Valid() && fresh(ent) && ent.rec == rec && ent.val == this && ring == [ent]
    {
      ent := new Ventry(rec, this);
      ent.next, ent.prev := ent, ent;
      count := 1;
      rlist := ent;
      ring := [ent];
    }

    // add_entry: at the end, which is just before the head.
    method Add(rec: TblRec) returns (ent: Ventry)
      requires Valid()
      modifies this, ring
      ensures Valid() && fresh(ent) && ent.rec == rec && ent.val == this && ring == old(ring) + [ent]
    {
      hide NoTwice, Linked;
      ent := new Ventry(rec, this);
      count := count + 1;
      EntriesOf();
      Link(ent);
      Extend(ent);
    }

    lemma EntriesOf()
      requires Linked()
      ensures ring != [] && NoTwice(ring) && forall e :: e in ring ==> e.val == this
    {
    }

    ghost method Extend(ent: Ventry)
      requires ring != [] && NoTwice(ring) && ent !in ring && ent.val == this && forall e :: e in ring ==> e.val == this
      requires ent.prev == ring[|ring| - 1] && ent.next == ring[0]
      requires forall o {:trigger ring[o].next} :: 0 <= o < |ring| ==>
        ring[o].next == if o == |ring| - 1 then ent else ring[Succ(o, |ring|)]
      requires forall o {:trigger ring[o].prev} :: 0 <= o < |ring| ==>
        ring[o].prev == if o == 0 then ent else ring[Pred(o, |ring|)]
      modifies `ring
      ensures Linked() && ring == old(ring) + [ent]
    {
      hide Succ, Pred, NoTwice;
      var was, more := ring, ring + [ent];
      var nexts := seq(|more|, o requires 0 <= o < |more| reads more => more[o].next);
      var prevs := seq(|more|, o requires 0 <= o < |more| reads more => more[o].prev);
      NextWith(was, ent, nexts);
      PrevWith(was, ent, prevs);
      AddedOnce(was, ent);
      ring := more;
      forall j | 0 <= j < |more| ensures ring[j].val == this && ring[j].next == nexts[j] && ring[j].prev == prevs[j] {
        assert j < |was| ==> ring[j] in was;
      }
    }

    method Link(ent: Ventry)
      requires Circular() && ent !in ring
      modifies ent, ring
      ensures ent.prev == ring[|ring| - 1] && ent.next == ring[0]
      ensures forall o {:trigger ring[o].next} :: 0 <= o < |ring| ==>
        ring[o].next == if o == |ring| - 1 then ent else ring[Succ(o, |ring|)]
      ensures forall o {:trigger ring[o].prev} :: 0 <= o < |ring| ==>
        ring[o].prev == if o == 0 then ent else ring[Pred(o, |ring|)]
    {
      assert rlist.prev == ring[|ring| - 1];
      ent.prev := rlist.prev;
      ent.next := rlist;
      rlist.prev.next := ent;
      rlist.prev := ent;
    }

    method PopCounted(it: Ventry, cur: Ventry?, ghost i: nat) returns (next: Ventry?)
      requires Valid() && i < |ring| && ring[i] == it && |ring| > 1
      modifies this, ring
      ensures Valid() && ring == old(ring)[..i] + old(ring)[i + 1..] && rlist == ring[0]
      ensures next == if cur == it then rlist else cur
    {
      count := count - 1;
      next := Pop(it, cur, i);
    }

    // pop_ventry. Whoever walks the ring goes on at its head.
    method Pop(it: Ventry, cur: Ventry?, ghost i: nat) returns (next: Ventry?)
      requires Circular() && i < |ring| && ring[i] == it && |ring| > 1
      modifies this`rlist, this`ring, ring
      ensures Circular() && ring == old(ring)[..i] + old(ring)[i + 1..]
      ensures next == if cur == it then rlist else cur
    {
      hide NoTwice;
      HeadFirst(i);
      if it == rlist {
        rlist := it.next;
      }
      next := cur;
      if cur == it {
        next := rlist;
      }
      ghost var was := ring;
      TakeOut(it, i);
      assert ring[0] == was[if i == 0 then 1 else 0];
    }

    lemma HeadFirst(i: nat)
      requires Circular() && i < |ring|
      ensures ring[i] == rlist <==> i == 0
      ensures rlist.next == ring[Succ(0, |ring|)]
    {
    }

    method TakeOut(it: Ventry, ghost i: nat)
      requires Linked() && i < |ring| && ring[i] == it && |ring| > 1
      modifies `ring, ring
      ensures Linked() && ring == old(ring)[..i] + old(ring)[i + 1..]
    {
      hide Succ, Pred, NoTwice;
      Unlink(it, i);
      ghost var was, n := ring, |ring|;
      ghost var nexts := seq(n, o requires 0 <= o < n reads was => was[o].next);
      ghost var prevs := seq(n, o requires 0 <= o < n reads was => was[o].prev);
      NextWithout(was, nexts, i);
      PrevWithout(was, prevs, i);
      RingWithout(was, i);
      ring := was[..i] + was[i + 1..];
      ghost var rn, rp := nexts[..i] + nexts[i + 1..], prevs[..i] + prevs[i + 1..];
      forall j | 0 <= j < n - 1 ensures ring[j].val == this && ring[j].next == rn[j] && ring[j].prev == rp[j] {
        assert ring[j] == was[if j < i then j else j + 1];
      }
    }

    method Unlink(it: Ventry, ghost i: nat)
      requires Linked() && i < |ring| && ring[i] == it && |ring| > 1
      modifies ring
      ensures forall o {:trigger ring[o].next} :: 0 <= o < |ring| ==>
        ring[o].next == ring[if o == Pred(i, |ring|) then Succ(i, |ring|) else Succ(o, |ring|)]
      ensures forall o {:trigger ring[o].prev} :: 0 <= o < |ring| ==>
        ring[o].prev == ring[if o == Succ(i, |ring|) then Pred(i, |ring|) else Pred(o, |ring|)]
    {
      assert it.next == ring[Succ(i, |ring|)] && it.prev == ring[Pred(i, |ring|)];
      it.next.prev := it.prev;
      it.prev.next := it.next;
    }
  }

  class TblLis {
    const key: string
    const fld: TblFld
    var rec: TblRec?

    constructor (key: string, fld: TblFld)
      ensures this.key == key && this.fld == fld && rec == null
    {
      this.key, this.fld, rec := key, fld, null;
    }
  }

  ghost function Entries(at: map<TblRec, Ventry>, rs: seq<TblRec>): (es: seq<Ventry>)
    requires forall r :: r in rs ==> r in at
    ensures |es| == |rs|
  {
    seq(|rs|, i requires 0 <= i < |rs| => at[rs[i]])
  }

  lemma EntriesAdded(at: map<TblRec, Ventry>, rs: seq<TblRec>, rec: TblRec, ent: Ventry)
    requires (forall r :: r in rs ==> r in at) && rec !in rs
    ensures Entries(at[rec := ent], rs) == Entries(at, rs)
    ensures Entries(at[rec := ent], rs + [rec]) == Entries(at, rs) + [ent]
  {
  }

  lemma MatchingAdded(rs: seq<TblRec>, rec: TblRec, f: string, k: string)
    ensures Matching(rs + [rec], f, k) == Matching(rs, f, k) + if Carries(rec, f, k) then [rec] else []
  {
    LastOf(rs, rec);
  }

  // The rings that a field has to have for these records: for each value that one of them
  // carries, the entries of exactly those that do, oldest first.
  ghost predicate Indexed(key: string, rings: map<string, seq<Ventry>>, at: map<TblRec, Ventry>, live: seq<TblRec>) {
    && (forall r :: r in live ==> r in at && key in r.row && r.row[key] in rings)
    && (forall r :: r in at ==> r in live && at[r].rec == r && at[r].val.key == r.row[key])
    && (forall k :: k in rings ==>
          && Matching(live, key, k) != [] && (forall r :: r in Matching(live, key, k) ==> r in at)
          && rings[k] == Entries(at, Matching(live, key, k)))
  }

  lemma IndexedMore(key: string, rings: map<string, seq<Ventry>>, at: map<TblRec, Ventry>, live: seq<TblRec>,
                    rec: TblRec, ent: Ventry)
    requires Indexed(key, rings, at, live) && rec !in live && key in rec.row && ent.rec == rec
    requires ent.val.key == rec.row[key]
    ensures var k := rec.row[key];
      Indexed(key, rings[k := (if k in rings then rings[k] else []) + [ent]], at[rec := ent], live + [rec])
  {
    hide Matching, Entries;
    var data := rec.row[key];
    var rings', at' := rings[data := (if data in rings then rings[data] else []) + [ent]], at[rec := ent];
    forall k | k in rings'
      ensures Matching(live + [rec], key, k) != []
      ensures forall r :: r in Matching(live + [rec], key, k) ==> r in at'
      ensures rings'[k] == Entries(at', Matching(live + [rec], key, k))
    {
      MatchingAdded(live, rec, key, k);
      MatchingIn(live, key, k);
      if k !in rings {
        NoMatches(live, key, k);
        NoEntries(at);
      }
      EntriesAdded(at, Matching(live, key, k), rec, ent);
      assert Matching(live, key, k) + [] == Matching(live, key, k) && [] + [ent] == [ent];
    }
  }

  lemma {:induction false} NoMatches(live: seq<TblRec>, f: string, k: string)
    requires forall r :: r in live ==> !Carries(r, f, k)
    ensures Matching(live, f, k) == []
  {
    if live != [] {
      NoMatches(live[..|live| - 1], f, k);
    }
  }

  lemma NoEntries(at: map<TblRec, Ventry>)
    ensures Entries(at, []) == []
  {
  }

  lemma IndexedLess(key: string, rings: map<string, seq<Ventry>>, at: map<TblRec, Ventry>, live: seq<TblRec>, i: nat,
                    k: string)
    requires Indexed(key, rings, at, live) && NoTwice(live) && k in rings && i < |rings[k]|
    ensures var rec := rings[k][i].rec;
      && rec in live && rec in at && at[rec] == rings[k][i] && rec.row[key] == k
      && Indexed(key, if |rings[k]| == 1 then rings - {k} else rings[k := rings[k][..i] + rings[k][i + 1..]],
                 at - {rec}, Without(live, rec))
  {
    hide Entries, Matching, Indexed;
    var rec := rings[k][i].rec;
    Owner(key, rings, at, live, i, k);
    WithoutIn(live, rec);
    var rings' := if |rings[k]| == 1 then rings - {k} else rings[k := rings[k][..i] + rings[k][i + 1..]];
    forall l | l in rings' ensures RingLeft(key, rings'[l], at - {rec}, Without(live, rec), l) {
      RingsLess(key, rings, at, live, i, k, l);
    }
    forall r | r in Without(live, rec) ensures key in r.row && r in at && r.row[key] in rings' {
      StillCarried(key, rings, at, live, i, k, r);
    }
    IndexedFrom(key, rings', at - {rec}, Without(live, rec));
  }

  ghost predicate RingLeft(key: string, ring: seq<Ventry>, at: map<TblRec, Ventry>, live: seq<TblRec>, l: string) {
    && Matching(live, key, l) != [] && (forall r :: r in Matching(live, key, l) ==> r in at)
    && ring == Entries(at, Matching(live, key, l))
  }

  lemma IndexedFrom(key: string, rings: map<string, seq<Ventry>>, at: map<TblRec, Ventry>, live: seq<TblRec>)
    requires forall l :: l in rings ==> RingLeft(key, rings[l], at, live, l)
    requires forall r :: r in live ==> r in at && key in r.row && r.row[key] in rings
    requires forall r :: r in at ==> r in live && at[r].rec == r && at[r].val.key == r.row[key]
    ensures Indexed(key, rings, at, live)
  {
  }

  lemma Owner(key: string, rings: map<string, seq<Ventry>>, at: map<TblRec, Ventry>, live: seq<TblRec>, i: nat,
              k: string)
    requires Indexed(key, rings, at, live) && k in rings && i < |rings[k]|
    ensures var rec := rings[k][i].rec;
      && rec in live && rec in at && at[rec] == rings[k][i] && rec.row[key] == k
      && |Matching(live, key, k)| == |rings[k]| && rec == Matching(live, key, k)[i]
    ensures forall r :: r in at ==> r in live && at[r].rec == r && key in r.row && at[r].val.key == r.row[key]
  {
    hide Matching, Entries;
    MatchingIn(live, key, k);
    RingOwner(at, Matching(live, key, k), i);
  }

  lemma RingsLess(key: string, rings: map<string, seq<Ventry>>, at: map<TblRec, Ventry>, live: seq<TblRec>, i: nat,
                  k: string, l: string)
    requires Indexed(key, rings, at, live) && NoTwice(live) && k in rings && i < |rings[k]|
    requires l in rings && (l == k ==> |rings[k]| > 1)
    ensures var rec := rings[k][i].rec;
      RingLeft(key, if l == k then rings[k][..i] + rings[k][i + 1..] else rings[l], at - {rec}, Without(live, rec), l)
  {
    hide Matching, Entries, Without;
    Owner(key, rings, at, live, i, k);
    var rec := rings[k][i].rec;
    MatchingWithout(live, rec, key, l);
    MatchingIn(live, key, l);
    if l == k {
      WithoutAt(Matching(live, key, k), i);
      EntriesWithout(at, Matching(live, key, k), i);
    } else {
      WithoutIn(Matching(live, key, l), rec);
      EntriesSame(at, at - {rec}, Matching(live, key, l));
    }
  }

  lemma StillCarried(key: string, rings: map<string, seq<Ventry>>, at: map<TblRec, Ventry>, live: seq<TblRec>, i: nat,
                     k: string, r: TblRec)
    requires Indexed(key, rings, at, live) && k in rings && i < |rings[k]| && r in live && r != rings[k][i].rec
    ensures key in r.row && r in at && r.row[key] in rings && (r.row[key] == k ==> |rings[k]| > 1)
  {
    hide Matching, Entries;
    Owner(key, rings, at, live, i, k);
    MatchingIn(live, key, k);
    if r.row[key] == k {
      AnotherOne(Matching(live, key, k), rings[k][i].rec, r);
    }
  }

  lemma RingOwner(at: map<TblRec, Ventry>, rs: seq<TblRec>, i: nat)
    requires i < |rs| && forall r :: r in rs ==> r in at && at[r].rec == r
    ensures Entries(at, rs)[i].rec == rs[i] && at[rs[i]] == Entries(at, rs)[i]
  {
  }

  lemma EntriesWithout(at: map<TblRec, Ventry>, rs: seq<TblRec>, i: nat)
    requires i < |rs| && NoTwice(rs) && forall r :: r in rs ==> r in at
    ensures var rs' := rs[..i] + rs[i + 1..];
      && (forall r :: r in rs' ==> r in at - {rs[i]})
      && Entries(at - {rs[i]}, rs') == Entries(at, rs)[..i] + Entries(at, rs)[i + 1..]
  {
    RingWithout(rs, i);
    var rs' := rs[..i] + rs[i + 1..];
    forall r | r in rs' ensures r in at - {rs[i]} {
      var j :| 0 <= j < |rs'| && rs'[j] == r;
      assert rs'[j] == rs[if j < i then j else j + 1];
    }
  }

  lemma EntriesSame(at: map<TblRec, Ventry>, at': map<TblRec, Ventry>, rs: seq<TblRec>)
    requires forall r :: r in rs ==> r in at && r in at' && at[r] == at'[r]
    ensures Entries(at, rs) == Entries(at', rs)
  {
  }

  lemma AnotherOne<T>(s: seq<T>, x: T, y: T)
    requires x in s && y in s && x != y
    ensures |s| > 1
  {
  }

  // A new record goes to the listener on its value, unless that one has a record.
  ghost function Taken(held: map<string, TblRec?>, k: string, rec: TblRec): map<string, TblRec?> {
    if k in held && held[k] == null then held[k := rec] else held
  }

  // What is left of the listeners' records: a listener loses its own exactly when no record with
  // its value is left.
  ghost function LeftOf(held: map<string, TblRec?>, f: string, stat: bool, live: seq<TblRec>): map<string, TblRec?> {
    map k | k in held :: if stat || Matching(live, f, k) == [] then null else held[k]
  }

  ghost function Cleared(held: map<string, TblRec?>, k: string): map<string, TblRec?> {
    if k in held then held[k := null] else held
  }

  // A new listener takes the oldest record with its value, if its field is indexed.
  ghost function Listening(held: map<string, TblRec?>, k: string, f: string, stat: bool, live: seq<TblRec>)
    : map<string, TblRec?>
  {
    if k in held then held
    else held[k := if stat || Matching(live, f, k) == [] then null else Matching(live, f, k)[0]]
  }

  lemma ListenersStay(held: map<string, TblRec?>, k: string, rec: TblRec)
    ensures Taken(held, k, rec).Keys == held.Keys
  {
  }

  lemma ListenersLeft(held: map<string, TblRec?>, f: string, k: string, live: seq<TblRec>)
    ensures LeftOf(held, f, false, live).Keys == held.Keys
    ensures LeftOf(Cleared(held, k), f, false, live).Keys == held.Keys
  {
  }

  lemma ListenerAdded(held: map<string, TblRec?>, k: string, f: string, stat: bool, live: seq<TblRec>)
    ensures Listening(held, k, f, stat, live).Keys == held.Keys + {k}
  {
  }

  // LIST_REMOVE
  function Unlisted(recs: seq<TblRec>, r: TblRec): seq<TblRec> {
    if recs == [] then [] else if recs[0] == r then recs[1..] else [recs[0]] + Unlisted(recs[1..], r)
  }

  ghost function Firsts(flds: seq<string>, n: nat): set<string>
    requires n <= |flds|
  {
    set i | 0 <= i < n :: flds[i]
  }

  // The entry of the record is the i-th in the ring of its value.
  ghost predicate At(key: string, rings: map<string, seq<Ventry>>, at: map<TblRec, Ventry>, live: seq<TblRec>,
                     rec: TblRec, i: nat) {
    && Indexed(key, rings, at, live) && key in rec.row && rec.row[key] in rings
    && i < |rings[rec.row[key]]| && rings[rec.row[key]][i].rec == rec
  }

  // A field, with the values its records carry and the listeners on values.
  class TblFld {
    const key: string
    const stat: bool  // its data is not indexed
    var vals: map<string, TblVal>
    var lis: map<string, TblLis>
    ghost var rings: map<string, seq<Ventry>>
    ghost var cells: set<Ventry>
    ghost var owned: set<object>
    ghost var at: map<TblRec, Ventry>  // the entry of each record

    // What belongs to this field and to no other.
    ghost predicate Holds()
      reads this
    {
      && vals.Values <= owned && cells <= owned && lis.Values <= owned
      && forall o :: o in owned ==> o is TblVal || o is Ventry || o is TblLis
    }

    // A value in the hash, and what its ring holds.
    ghost predicate Node(k: string)
      requires k in vals && k in rings
      reads `vals, `rings, `cells, vals.Values, cells
    {
      && vals[k].key == k && vals[k].fld == this && vals[k].ring == rings[k]
      && (forall e :: e in rings[k] ==> e in cells) && vals[k].Valid()
    }

    ghost predicate Coherent()
      reads `vals, `rings, `cells, vals.Values, cells
    {
      vals.Keys == rings.Keys && forall k :: k in vals ==> Node(k)
    }

    // The records that the listeners hold.
    ghost function Held(): map<string, TblRec?>
      reads `lis, lis.Values
    {
      map k | k in lis :: lis[k].rec
    }

    // Where the ring of a value starts.
    ghost function Head(k: string): Ventry?
      reads `rings
    {
      if k in rings && rings[k] != [] then rings[k][0] else null
    }

    ghost predicate Listeners()
      reads `lis
    {
      forall k :: k in lis ==> lis[k].key == k && lis[k].fld == this
    }

    // A listener has no record when no record carries its value, or none is indexed.
    ghost predicate NoneStale(live: seq<TblRec>)
      requires Listeners()
      reads `lis, lis.Values
    {
      forall k :: k in lis && (stat || Matching(live, key, k) == []) ==> lis[k].rec == null
    }

    // A change of one value leaves the others alone.
    twostate lemma Rest(k: string)
      requires old(Coherent()) && vals.Keys == rings.Keys && old(cells) <= cells
      requires forall l :: l in vals && l != k ==>
        && l in old(vals) && vals[l] == old(vals[l]) && rings[l] == old(rings[l]) && unchanged(vals[l])
        && forall e :: e in old(rings[l]) ==> unchanged(e)
      requires k in vals ==> Node(k)
      ensures Coherent()
    {
      hide TblVal.Circular;
      forall l | l in vals && l != k ensures Node(l) {
        assert old(Node(l));
      }
    }

    ghost predicate Valid(live: seq<TblRec>)
      reads `vals, `rings, `cells, `at, vals.Values, cells
    {
      && Coherent() && (forall e :: e in cells ==> e.val.fld == this)
      && if stat then vals == map[] && at == map[] else Indexed(key, rings, at, live)
    }

    constructor (key: string, stat: bool)
      ensures this.key == key && this.stat == stat && Valid([]) && lis == map[] && at == map[] && vals == map[]
      ensures cells == {}
      ensures owned == {}
    {
      this.key, this.stat, vals, lis, rings, cells, owned, at := key, stat, map[], map[], map[], {}, {}, map[];
    }

    // A value is in the hash exactly when a record carries it; its count is their number, and
    // its ring lists them in the order they came.
    lemma Index(live: seq<TblRec>, k: string)
      requires Valid(live) && !stat
      ensures k in vals <==> exists r :: r in live && r.row[key] == k
      ensures k in vals ==> vals[k].count == |Matching(live, key, k)|
      ensures k in vals ==> forall i :: 0 <= i < |vals[k].ring| ==> vals[k].ring[i].rec == Matching(live, key, k)[i]
    {
      hide Matching, Entries;
      MatchingIn(live, key, k);
      if k in vals {
        assert Matching(live, key, k)[0] in live;
        forall i | 0 <= i < |vals[k].ring| ensures vals[k].ring[i].rec == Matching(live, key, k)[i] {
          RingOwner(at, Matching(live, key, k), i);
        }
      }
    }

    // new_entry or add_entry.
    method AddEntry(rec: TblRec, data: string) returns (ent: Ventry)
      requires Coherent()
      modifies `vals, `rings, `cells, vals.Values, cells
      ensures Coherent() && fresh(ent) && ent.rec == rec && ent.val.fld == this && ent.val.key == data
      ensures rings == old(rings)[data := (if data in old(rings) then old(rings)[data] else []) + [ent]]
      ensures cells == old(cells) + {ent} && vals.Keys == old(vals.Keys) + {data}
      ensures fresh(vals.Values - old(vals.Values))
    {
      hide Coherent, TblVal.Valid;
      Listed(data);
      if data in vals {
        ent := AddTo(data, rec);
      } else {
        ent := AddFirst(data, rec);
        assert [] + [ent] == [ent];
      }
    }

    lemma Listed(data: string)
      requires Coherent()
      ensures vals.Keys == rings.Keys && (forall k :: k in vals ==> vals[k].ring == rings[k])
      ensures data in vals ==> forall e :: e in vals[data].ring ==> e in cells
    {
    }

    method AddFirst(data: string, rec: TblRec) returns (ent: Ventry)
      requires Coherent() && data !in vals
      modifies `vals, `rings, `cells
      ensures Coherent() && fresh(ent) && ent.rec == rec && ent.val.fld == this && ent.val.key == data
      ensures rings == old(rings)[data := [ent]] && cells == old(cells) + {ent} && vals.Keys == old(vals.Keys) + {data}
      ensures fresh(vals.Values - old(vals.Values))
    {
      hide TblVal.Valid, Coherent;
      Listed(data);
      var v := new TblVal(data, this);
      ent := v.First(rec);
      vals := vals[data := v];
      rings := rings[data := [ent]];
      cells := cells + {ent};
      Rest(data);
    }

    lemma Apart()
      requires Coherent()
      ensures forall k, l :: k in vals && l in vals && k != l ==>
        vals[k] != vals[l] && forall e :: e in vals[k].ring ==> e !in vals[l].ring
    {
      forall k | k in vals ensures vals[k].key == k && forall e :: e in vals[k].ring ==> e.val == vals[k] {
      }
    }

    // Apart, seen from one of the rings.
    lemma ApartFrom(k: string)
      requires Coherent() && k in vals
      ensures forall l :: l in vals && l != k ==>
        vals[l] != vals[k] && forall e :: e in rings[l] ==> e !in rings[k] && e !in vals[k].ring
    {
      Apart();
    }

    method AddTo(data: string, rec: TblRec) returns (ent: Ventry)
      requires Coherent() && data in vals
      modifies `rings, `cells, vals[data], vals[data].ring
      ensures Coherent() && fresh(ent) && ent.rec == rec && ent.val.fld == this && ent.val.key == data
      ensures rings == old(rings)[data := old(rings)[data] + [ent]] && cells == old(cells) + {ent}
    {
      hide TblVal.Valid, Coherent;
      Listed(data);
      OwnVal(data, 0);
      ApartFrom(data);
      ent := vals[data].Add(rec);
      rings := rings[data := rings[data] + [ent]];
      cells := cells + {ent};
      Rest(data);
    }

    // del_fldval: the value leaves the hash, and a listener on it has no record any more.
    method DelFldVal(val: TblVal)
      requires Listeners()
      modifies `vals, lis.Values, val`rlist
      ensures vals == old(vals) - {val.key}
      ensures forall k :: k in lis ==> lis[k].rec == if k == val.key then null else old(lis[k].rec)
    {
      if val.key in vals {
        vals := vals - {val.key};
      }
      if val.key in lis {
        lis[val.key].rec := null;
      }
      val.rlist := null;
    }

    // One field of tbl_del_rec: the entry leaves its ring, and with the last entry goes the value.
    // Whoever walks the ring goes on at its head, or stops.
    method RemoveEntry(ent: Ventry, cur: Ventry?, ghost k: string, ghost i: nat) returns (next: Ventry?)
      requires Coherent() && Listeners() && k in vals && i < |rings[k]| && rings[k][i] == ent
      modifies `vals, `rings, vals.Values, cells, lis.Values
      ensures Coherent()
      ensures rings == if |old(rings)[k]| == 1 then old(rings) - {k}
        else old(rings)[k := old(rings)[k][..i] + old(rings)[k][i + 1..]]
      ensures next == if cur != ent then cur else if k in rings then rings[k][0] else null
      ensures forall l :: l in lis ==> lis[l].rec == if l == k && k !in rings then null else old(lis[l].rec)
      ensures vals.Keys <= old(vals.Keys) && vals.Values <= old(vals.Values)
    {
      hide Coherent, TblVal.Valid;
      OwnVal(k, i);
      var val := ent.val;
      if val.count == 1 {
        next := RemoveLast(ent, cur, k);
      } else {
        next := RemoveOne(ent, cur, k, i);
      }
    }

    lemma OwnVal(k: string, i: nat)
      requires Coherent() && k in vals && (i == 0 || i < |rings[k]|)
      ensures i < |rings[k]| && rings[k][i].val == vals[k] && vals[k].key == k && vals[k].fld == this
      ensures vals[k].count == |rings[k]| > 0
      ensures vals[k].Valid() && vals[k].ring == rings[k] && vals[k].rlist == rings[k][0] && NoTwice(rings[k])
      ensures forall e :: e in rings[k] ==> e in cells
      ensures vals.Keys == rings.Keys
    {
    }

    method RemoveLast(ent: Ventry, cur: Ventry?, ghost k: string) returns (next: Ventry?)
      requires Coherent() && Listeners() && k in vals && rings[k] == [ent]
      modifies `vals, `rings, ent.val, lis.Values
      ensures Coherent() && rings == old(rings) - {k} && next == if cur == ent then null else cur
      ensures forall l :: l in lis ==> lis[l].rec == if l == k then null else old(lis[l].rec)
      ensures vals.Keys <= old(vals.Keys) && vals.Values <= old(vals.Values)
    {
      hide TblVal.Valid, Coherent;
      OwnVal(k, 0);
      ApartFrom(k);
      var val := ent.val;
      val.count := val.count - 1;
      DelFldVal(val);
      next := if cur == ent then null else cur;
      rings := rings - {k};
      Rest(k);
    }

    method RemoveOne(ent: Ventry, cur: Ventry?, ghost k: string, ghost i: nat) returns (next: Ventry?)
      requires Coherent() && k in vals && i < |rings[k]| && rings[k][i] == ent && |rings[k]| > 1
      modifies `rings, vals[k], vals[k].ring
      ensures Coherent() && rings == old(rings)[k := old(rings)[k][..i] + old(rings)[k][i + 1..]]
      ensures next == if cur != ent then cur else rings[k][0]
    {
      hide TblVal.Valid, Coherent;
      OwnVal(k, i);
      ApartFrom(k);
      next := ent.val.PopCounted(ent, cur, i);
      rings := rings[k := rings[k][..i] + rings[k][i + 1..]];
      RingWithout(old(rings)[k], i);
      Rest(k);
    }

    // check_set_lis
    method CheckSetLis(data: string, rec: TblRec)
      requires Listeners()
      modifies lis.Values
      ensures forall k :: k in lis ==>
        lis[k].rec == if k == data && old(lis[k].rec) == null then rec else old(lis[k].rec)
      ensures Held() == Taken(old(Held()), data, rec)
    {
      if |lis| < 1 {
        return;
      }
      if data !in lis || lis[data].rec != null {
        return;
      }
      lis[data].rec := rec;
    }

    // One field of tbl_insert.
    method Attach(rec: TblRec, data: string, ghost live: seq<TblRec>) returns (ent: Ventry)
      requires Valid(live) && Listeners() && !stat && rec !in live && key in rec.row && data == rec.row[key]
      modifies `vals, `rings, `cells, `at, vals.Values, cells, lis.Values
      ensures Valid(live + [rec]) && fresh(ent) && at == old(at)[rec := ent]
      ensures fresh(vals.Values - old(vals.Values)) && fresh(cells - old(cells))
      ensures old(NoneStale(live)) ==> NoneStale(live + [rec])
      ensures Held() == Taken(old(Held()), data, rec)
    {
      hide Valid, NoneStale, Matching, Held, Taken;
      ent := Enter(rec, data, live);
      CheckSetLis(data, rec);
      LastOf(live, rec);
      StaleMore(live + [rec]);
    }

    method Enter(rec: TblRec, data: string, ghost live: seq<TblRec>) returns (ent: Ventry)
      requires Valid(live) && !stat && rec !in live && key in rec.row && data == rec.row[key]
      modifies `vals, `rings, `cells, `at, vals.Values, cells
      ensures Valid(live + [rec]) && fresh(ent) && at == old(at)[rec := ent]
      ensures fresh(vals.Values - old(vals.Values)) && fresh(cells - old(cells))
    {
      hide Coherent, Indexed;
      ent := AddEntry(rec, data);
      IndexedMore(key, old(rings), at, live, rec, ent);
      at := at[rec := ent];
    }

    // A field that is not indexed takes no notice.
    lemma StatNext(live: seq<TblRec>, rec: TblRec)
      requires stat && Valid(live) && Listeners() && NoneStale(live)
      ensures Valid(live + [rec]) && NoneStale(live + [rec])
    {
      hide Matching;
      forall k | k in lis ensures Matching(live + [rec], key, k) == [] ==> Matching(live, key, k) == [] {
        MatchingAdded(live, rec, key, k);
      }
    }

    // The loop of tbl_insert, for one field.
    method Take(rec: TblRec, data: string, ghost live: seq<TblRec>) returns (val: TblVal, ent: Ventry?)
      requires Valid(live) && Holds() && Listeners() && NoneStale(live)
      requires rec !in live && key in rec.row && data == rec.row[key]
      modifies this, owned
      ensures Valid(live + [rec]) && Holds() && Listeners() && NoneStale(live + [rec]) && fresh(owned - old(owned))
      ensures if stat then ent == null && at == old(at) else ent != null && ent.val == val && at == old(at)[rec := ent]
      ensures stat ==> val.fld == this && val.key == data
      ensures Held() == if stat then old(Held()) else Taken(old(Held()), data, rec)
    {
      hide Valid, NoneStale, Taken, Held, Holds;
      Mine(live);
      if stat {
        StatNext(live, rec);
        val := new TblVal(data, this);
        ent := null;
      } else {
        ent := Attach(rec, data, live);
        val := ent.val;
        Own(live + [rec]);
      }
    }

    // What is in use is owned.
    ghost method Own(live: seq<TblRec>)
      requires Valid(live) && Listeners() && NoneStale(live) && lis.Values <= owned
      requires forall o :: o in owned ==> o is TblVal || o is Ventry || o is TblLis
      modifies `owned
      ensures Valid(live) && Holds() && Listeners() && NoneStale(live) && owned == old(owned) + vals.Values + cells
      ensures Held() == old(Held())
    {
      hide Valid, NoneStale, Held;
      owned := owned + vals.Values + cells;
    }

    // tbl_add_lis
    method Listen(k: string, ghost live: seq<TblRec>)
      requires Valid(live) && Holds() && Listeners() && NoneStale(live)
      modifies `lis, `owned
      ensures Valid(live) && Holds() && Listeners() && NoneStale(live) && fresh(owned - old(owned)) && k in lis
      ensures Held() == Listening(old(Held()), k, key, stat, live)
    {
      hide NoneStale, Matching, Indexed, Held, Listening;
      AddLis(k, live);
      owned := owned + lis.Values;
    }

    method Clear(k: string, ghost live: seq<TblRec>)
      requires Valid(live) && Holds() && Listeners() && NoneStale(live)
      modifies owned
      ensures Valid(live) && Holds() && Listeners() && NoneStale(live) && unchanged(this)
      ensures Held() == Cleared(old(Held()), k)
    {
      hide Matching, Indexed;
      if k in lis {
        Mine(live);
        lis[k].rec := null;
      }
    }

    // Listeners are neither values nor entries.
    lemma Mine(live: seq<TblRec>)
      requires Holds() && Listeners()
      ensures lis.Values <= owned && forall k :: k in lis ==> lis[k].key == k
      ensures vals.Values <= owned && cells <= owned
      ensures forall o :: o in owned ==> o is TblVal || o is Ventry || o is TblLis
    {
    }

    // The loop of tbl_del_rec, for one field.
    method Drop(rec: TblRec, ent: Ventry?, cur: Ventry?, ghost live: seq<TblRec>) returns (next: Ventry?)
      requires Valid(live) && Holds() && Listeners() && NoneStale(live) && NoTwice(live) && rec in live
      requires if stat then ent == null else rec in at && ent == at[rec]
      modifies this, owned
      ensures lis == old(lis)
      ensures Valid(Without(live, rec)) && Holds() && Listeners() && NoneStale(Without(live, rec))
      ensures owned == old(owned)
      ensures at == if stat then old(at) else old(at) - {rec}
      ensures next == if ent == null || cur != ent then cur else Head(ent.val.key)
      ensures Held() == LeftOf(old(Held()), key, stat, Without(live, rec))
    {
      hide Coherent, Indexed, Matching, Without;
      if ent == null {
        NoneLost(live, rec);
        next := cur;
      } else {
        next := Detach(rec, ent, cur, live);
        NoneStaleLeft(old(Held()), Without(live, rec));
      }
    }

    lemma NoneStaleLeft(held: map<string, TblRec?>, live: seq<TblRec>)
      requires Listeners() && Held() == LeftOf(held, key, stat, live)
      ensures NoneStale(live)
    {
      hide Matching;
      forall k | k in lis && (stat || Matching(live, key, k) == []) ensures lis[k].rec == null {
        assert Held()[k] == lis[k].rec;
      }
    }

    // A record less leaves no listener with more.
    lemma NoneLost(live: seq<TblRec>, rec: TblRec)
      requires NoTwice(live) && rec in live && Listeners() && stat && NoneStale(live)
      ensures Held() == LeftOf(Held(), key, stat, Without(live, rec))
    {
      hide Matching, Without;
    }

    // What the newest record does to the listeners.
    twostate lemma StaleMore(live: seq<TblRec>)
      requires !stat && live != [] && old(Listeners()) && lis == old(lis) && key in live[|live| - 1].row
      requires forall k :: k in lis ==>
        lis[k].rec == if k == live[|live| - 1].row[key] && old(lis[k].rec) == null then live[|live| - 1]
          else old(lis[k].rec)
      ensures old(NoneStale(live[..|live| - 1])) ==> NoneStale(live)
    {
      hide Matching;
      var before, rec := live[..|live| - 1], live[|live| - 1];
      assert live == before + [rec];
      forall k | k in lis
        ensures Matching(live, key, k) == if k == rec.row[key] then Matching(before, key, k) + [rec]
          else Matching(before, key, k)
      {
        MatchingAdded(before, rec, key, k);
        assert Matching(before, key, k) + [] == Matching(before, key, k);
      }
    }

    ghost method Position(rec: TblRec, live: seq<TblRec>) returns (i: nat)
      requires Valid(live) && !stat && rec in live
      ensures rec in at && key in rec.row && rec.row[key] in vals && rec.row[key] in rings
      ensures i < |rings[rec.row[key]]| && rings[rec.row[key]][i] == at[rec]
      ensures at[rec].rec == rec && at[rec].val.fld == this && at[rec].val.key == rec.row[key]
    {
      var k := rec.row[key];
      MatchingIn(live, key, k);
      i :| 0 <= i < |Matching(live, key, k)| && Matching(live, key, k)[i] == rec;
      OwnVal(k, i);
    }

    // One field of tbl_del_rec.
    method Detach(rec: TblRec, ent: Ventry, cur: Ventry?, ghost live: seq<TblRec>) returns (next: Ventry?)
      requires Valid(live) && Listeners() && !stat && NoTwice(live) && rec in live && rec in at && ent == at[rec]
      modifies `vals, `rings, `at, vals.Values, cells, lis.Values
      ensures Valid(Without(live, rec)) && at == old(at) - {rec}
      ensures vals.Values <= old(vals.Values)
      ensures next == if cur != ent then cur else Head(ent.val.key)
      ensures old(NoneStale(live)) ==> Held() == LeftOf(old(Held()), key, false, Without(live, rec))
    {
      hide Valid, Coherent, Indexed, Matching, Without, NoneStale, LeftOf, Held, At, Listeners, NoTwice, Cut;
      ghost var i := Position(rec, live);
      IsAt(live, rec, i);
      IsValid(live);
      next := RemoveEntry(ent, cur, rec.row[key], i);
      CutIs(rec.row[key]);
      Unindex(rec, live, i, old(rings));
      OnesLeft(i, (live, rec));
    }

    ghost method Unindex(rec: TblRec, live: seq<TblRec>, i: nat, before: map<string, seq<Ventry>>)
      requires Coherent() && !stat && (forall e :: e in cells ==> e.val.fld == this) && NoTwice(live) && rec in live
      requires At(key, before, at, live, rec, i)
      requires rings == if |before[rec.row[key]]| == 1 then before - {rec.row[key]}
        else before[rec.row[key] := before[rec.row[key]][..i] + before[rec.row[key]][i + 1..]]
      modifies `at
      ensures Valid(Without(live, rec)) && at == old(at) - {rec}
    {
      hide Coherent, Indexed, Without, NoTwice;
      IndexedLess(key, before, at, live, i, rec.row[key]);
      at := at - {rec};
    }

    // Only the listener on k can have lost its record, and it has if the value is gone.
    twostate predicate Cut(k: string)
      requires lis == old(lis)
      reads `lis, `rings, lis.Values
    {
      forall l :: l in lis ==> lis[l].rec == if l == k && l !in rings then null else old(lis[l].rec)
    }

    twostate lemma CutIs(new k: string)
      requires lis == old(lis)
      requires forall l :: l in lis ==> lis[l].rec == if l == k && k !in rings then null else old(lis[l].rec)
      ensures Cut(k)
    {
    }

    lemma IsValid(live: seq<TblRec>)
      requires Valid(live) && !stat
      ensures Coherent() && Indexed(key, rings, at, live) && forall e :: e in cells ==> e.val.fld == this
    {
      hide Coherent, Indexed;
    }

    lemma MakesValid(live: seq<TblRec>)
      requires Coherent() && Indexed(key, rings, at, live) && !stat && forall e :: e in cells ==> e.val.fld == this
      ensures Valid(live)
    {
      hide Coherent, Indexed;
    }

    lemma IsAt(live: seq<TblRec>, rec: TblRec, i: nat)
      requires Valid(live) && !stat && key in rec.row && rec.row[key] in rings
      requires i < |rings[rec.row[key]]| && rings[rec.row[key]][i].rec == rec
      ensures At(key, rings, at, live, rec, i)
    {
      hide Coherent, Indexed;
    }

    // The listener on the value of the record loses it with the last one.
    twostate lemma OnesLeft(new i: nat, x: (seq<TblRec>, TblRec))
      requires lis == old(lis) && NoTwice(x.0) && x.1 in x.0 && old(Listeners()) && !stat
      requires At(key, old(rings), old(at), x.0, x.1, i)
      requires x.1.row[key] in rings <==> |old(rings)[x.1.row[key]]| != 1
      requires Cut(x.1.row[key])
      ensures old(NoneStale(x.0)) ==> Held() == LeftOf(old(Held()), key, false, Without(x.0, x.1))
    {
      hide Indexed, Matching, Without;
      forall l | l in lis
        ensures Matching(Without(x.0, x.1), key, l) == [] <==>
          Matching(x.0, key, l) == [] || (l == x.1.row[key] && l !in rings)
      {
        MatchingLeft(old(rings), old(at), x.0, x.1, i, l);
      }
    }

    lemma MatchingLeft(rings: map<string, seq<Ventry>>, at: map<TblRec, Ventry>, live: seq<TblRec>, rec: TblRec, i: nat,
                       l: string)
      requires Indexed(key, rings, at, live) && NoTwice(live) && rec in live && key in rec.row && rec.row[key] in rings
      requires i < |rings[rec.row[key]]| && rings[rec.row[key]][i].rec == rec
      ensures Matching(Without(live, rec), key, l) == [] <==>
        Matching(live, key, l) == [] || (l == rec.row[key] && |rings[l]| == 1)
    {
      hide Matching, Without, Entries;
      var k := rec.row[key];
      Owner(key, rings, at, live, i, k);
      MatchingWithout(live, rec, key, l);
      MatchingIn(live, key, l);
      WithoutIn(Matching(live, key, l), rec);
      if l == k {
        WithoutAt(Matching(live, key, k), i);
      }
    }

    // tbl_add_lis, for one field. A new listener takes the oldest record with its value.
    method AddLis(k: string, ghost live: seq<TblRec>)
      requires Valid(live) && Listeners()
      modifies `lis
      ensures Listeners() && (if k in old(lis) then lis == old(lis) else lis.Keys == old(lis.Keys) + {k})
      ensures forall l :: l in old(lis) ==> l in lis && lis[l] == old(lis[l])
      ensures fresh(lis.Values - old(lis.Values))
      ensures old(NoneStale(live)) ==> NoneStale(live)
      ensures Held() == Listening(old(Held()), k, key, stat, live)
    {
      hide Valid, NoneStale, Matching;
      if k in lis {
        return;
      }
      var l := new TblLis(k, this);
      First(k, live);
      if k in vals {
        l.rec := vals[k].rlist.rec;
      }
      lis := lis[k := l];
      ListenerAdded(live, k);
    }

    lemma First(k: string, live: seq<TblRec>)
      requires Valid(live)
      ensures k in vals ==>
        Matching(live, key, k) != [] && vals[k].rlist != null && vals[k].rlist.rec == Matching(live, key, k)[0]
      ensures (k !in vals && !stat ==> Matching(live, key, k) == []) && (stat ==> k !in vals)
    {
      if k in vals {
        OwnVal(k, 0);
        RingOwner(at, Matching(live, key, k), 0);
      } else if !stat {
        NoMatches(live, key, k);
      }
    }

    twostate lemma ListenerAdded(live: seq<TblRec>, new k: string)
      requires old(Listeners()) && k !in old(lis) && k in lis && lis == old(lis)[k := lis[k]] && Listeners()
      requires forall l :: l in old(lis) ==> unchanged(lis[l])
      requires lis[k].rec == if stat || Matching(live, key, k) == [] then null else Matching(live, key, k)[0]
      ensures old(NoneStale(live)) ==> NoneStale(live)
      ensures Held() == Listening(old(Held()), k, key, stat, live)
    {
      hide Matching;
    }
  }

  function Rev<T>(s: seq<T>): seq<T> {
    if s == [] then [] else Rev(s[1..]) + [s[0]]
  }

  class Table {
    var fields: map<string, TblFld>
    var recs: seq<TblRec>        // the newest first
    ghost var repr: set<object>

    ghost function Live(): seq<TblRec>
      reads `recs
    {
      Rev(recs)
    }

    ghost predicate FieldOk(f: string, live: seq<TblRec>)
      requires f in fields
      reads this, repr
    {
      var c := fields[f];
      && c in repr && c.owned <= repr && c.key == f
      && c.Holds() && c.Valid(live) && c.Listeners() && c.NoneStale(live)
    }

    // Different fields share nothing.
    ghost predicate Apart()
      requires fields.Values <= repr
      reads this, repr
    {
      forall f, g :: f in fields && g in fields && f != g ==>
        fields[f] != fields[g] && fields[f].owned !! fields[g].owned
    }

    // The record's pointers are its entries in the fields.
    ghost predicate RecOk(r: TblRec)
      reads this, repr
    {
      && r in repr && fields.Values <= repr && NoTwice(r.flds) && |r.vals| == |r.vlist| == |r.flds|
      && (forall f :: f in r.flds ==> f in fields) && (forall f :: f in fields ==> f in r.flds)
      && forall i :: 0 <= i < |r.flds| ==> EntryOk(r, i)
    }

    ghost predicate EntryOk(r: TblRec, i: nat)
      requires i < |r.flds| && r.flds[i] in fields && fields.Values <= repr && i < |r.vals| == |r.vlist|
      reads this, repr, r
    {
      var c := fields[r.flds[i]];
      if c.stat then
        && r.vlist[i] == null && r.vals[i] != null && r.vals[i].fld == c
        && r.flds[i] in r.row && r.vals[i].key == r.row[r.flds[i]]
      else r in c.at && r.vlist[i] == c.at[r] && r.vals[i] == c.at[r].val
    }

    ghost predicate Valid()
      reads this, repr
    {
      && NoTwice(recs) && this !in repr && fields.Values <= repr && Apart()
      && (forall f :: f in fields ==> FieldOk(f, Live()))
      && forall r :: r in recs ==> RecOk(r)
    }

    constructor ()
      ensures Valid() && fields == map[] && recs == [] && repr == {}
    {
      fields, recs, repr := map[], [], {};
    }

    // tbl_mk_fld, before there are records.
    method MakeField(name: string, stat: bool)
      requires Valid() && recs == [] && name !in fields
      modifies this
      ensures Valid() && fields.Keys == old(fields.Keys) + {name} && fields[name].stat == stat && recs == []
      ensures fresh(repr - old(repr))
    {
      hide FieldOk;
      Outside({}, [], []);
      var fld := new TblFld(name, stat);
      fields := fields[name := fld];
      repr := repr + {fld};
      assert Live() == [];
      FieldWhole(name, []);
      forall f | f in fields && f != name ensures FieldOk(f, []) {
        FieldMoved(f);
      }
    }

    twostate lemma FieldMoved(new f: string)
      requires f in old(fields) && f in fields && fields[f] == old(fields[f]) && old(repr) <= repr
      requires old(FieldOk(f, [])) && unchanged(fields[f]) && forall o :: o in fields[f].owned ==> unchanged(o)
      ensures FieldOk(f, [])
    {
    }

    // Nothing of a field has changed.
    twostate predicate Untouched(c: TblFld)
      reads c, c.owned
    {
      unchanged(c) && forall o :: o in c.owned ==> unchanged(o)
    }

    twostate lemma FieldKept(new g: string, live: seq<TblRec>)
      requires fields == old(fields) && g in fields && old(FieldOk(g, live)) && old(repr) <= repr
      requires Untouched(fields[g])
      ensures FieldOk(g, live)
    {
      hide TblFld.Coherent, Indexed, Matching, TblFld.NoneStale;
      var c := fields[g];
      assert c.Holds() by {
        assert old(c.Holds());
      }
      assert c.Coherent() by {
        assert old(c.Coherent());
        assert forall v :: v in c.vals.Values ==> v in c.owned;
        assert forall e :: e in c.cells ==> e in c.owned;
      }
      assert c.NoneStale(live) by {
        assert old(c.NoneStale(live));
        assert forall l :: l in c.lis.Values ==> l in c.owned;
      }
    }

    // The fields of which some have taken in a change of the records already.
    ghost predicate Part(done: set<string>, live: seq<TblRec>, live': seq<TblRec>)
      reads this, repr
    {
      this !in repr && fields.Values <= repr && Apart() && forall f :: f in fields ==>
        FieldOk(f, if f in done then live' else live)
    }

    lemma Outside(done: set<string>, live: seq<TblRec>, live': seq<TblRec>)
      requires Part(done, live, live')
      ensures forall f ::
        f in fields ==> this !in fields[f].owned && forall g :: g in fields ==> fields[g] !in fields[f].owned
      ensures forall f :: f in fields ==> forall r :: r in recs ==> r !in fields[f].owned
      ensures fields.Values <= repr && forall f :: f in fields ==> fields[f].owned <= repr
      ensures forall f, g :: f in fields && g in fields && f != g ==> fields[f] != fields[g]
      ensures forall f, o :: f in fields && o in fields[f].owned ==> o is TblVal || o is Ventry || o is TblLis
    {
      forall f | f in fields ensures forall o :: o in fields[f].owned ==> o is TblVal || o is Ventry || o is TblLis {
        FieldParts(f, if f in done then live' else live);
      }
    }

    // One field of tbl_insert.
    method InsertField(f: string, rec: TblRec, data: string, ghost done: set<string>, ghost live: seq<TblRec>)
      returns (val: TblVal, ent: Ventry?)
      requires f in fields && f !in done && Part(done, live, live + [rec])
      requires rec !in live && f in rec.row && data == rec.row[f]
      modifies `repr, fields[f], fields[f].owned
      ensures Part(done + {f}, live, live + [rec]) && fresh(repr - old(repr)) && old(repr) <= repr
      ensures if fields[f].stat then ent == null && fields[f].at == old(fields[f].at)
        else ent != null && ent.val == val && fields[f].at == old(fields[f].at)[rec := ent]
      ensures fields[f].stat ==> val.fld == fields[f] && val.key == data
      ensures fields[f].Held() == if fields[f].stat then old(fields[f].Held())
        else Taken(old(fields[f].Held()), data, rec)
      ensures forall g :: g in fields && g != f ==> fields[g].Held() == old(fields[g].Held())
    {
      hide TblFld.Valid, TblFld.NoneStale, TblFld.Listeners, TblFld.Holds, TblFld.Held, FieldOk, Taken;
      var c := fields[f];
      FieldParts(f, live);
      Outside(done, live, live + [rec]);
      val, ent := c.Take(rec, data, live);
      repr := repr + c.owned;
      assert forall g :: g in fields && g != f ==> Untouched(fields[g]);
      FieldWhole(f, live + [rec]);
      RestKept(f, done, (live, live + [rec]));
      forall g | g in fields && g != f ensures fields[g].Held() == old(fields[g].Held()) {
        FieldParts(g, if g in done then live + [rec] else live);
        UntouchedListeners(fields[g]);
      }
    }

    twostate lemma RestKept(new f: string, new done: set<string>, lives: (seq<TblRec>, seq<TblRec>))
      requires fields == old(fields) && this !in repr && old(repr) <= repr && f in fields
      requires old(Part(done, lives.0, lives.1))
      requires forall g :: g in fields && g != f ==> Untouched(fields[g])
      requires FieldOk(f, lives.1) && fresh(fields[f].owned - old(fields[f].owned))
      ensures Part(done + {f}, lives.0, lives.1)
    {
      hide FieldOk;
      forall g | g in fields && g != f ensures FieldOk(g, if g in done then lives.1 else lives.0) {
        FieldKept(g, if g in done then lives.1 else lives.0);
      }
    }

    lemma FieldParts(f: string, live: seq<TblRec>)
      requires f in fields && FieldOk(f, live)
      ensures var c := fields[f];
        && c in repr && c.owned <= repr && c.key == f
        && c.Holds() && c.Valid(live) && c.Listeners() && c.NoneStale(live)
      ensures forall o :: o in fields[f].owned ==> o is TblVal || o is Ventry || o is TblLis
    {
    }

    lemma FieldWhole(f: string, live: seq<TblRec>)
      requires f in fields
      requires var c := fields[f];
        && c in repr && c.owned <= repr && c.key == f
        && c.Holds() && c.Valid(live) && c.Listeners() && c.NoneStale(live)
      ensures FieldOk(f, live)
    {
    }

    // A step that touches at most the entry of rec leaves those of the other records.
    twostate lemma RecsKept(new rec: TblRec?)
      requires fields == old(fields) && fields.Values <= old(repr) && old(repr) <= repr && recs == old(recs)
      requires forall r :: r in recs && r != rec ==> old(RecOk(r)) && unchanged(r)
      requires forall g :: g in fields ==> fields[g].stat == old(fields[g].stat)
      requires forall g :: g in fields ==>
        forall r :: r in old(fields[g].at) && r != rec ==> r in fields[g].at && fields[g].at[r] == old(fields[g].at[r])
      ensures forall r :: r in recs && r != rec ==> RecOk(r)
    {
      forall r | r in recs && r != rec ensures RecOk(r) {
        assert old(RecOk(r));
        forall i | 0 <= i < |r.flds| ensures EntryOk(r, i) {
          assert old(EntryOk(r, i));
        }
      }
    }

    // The record that is being inserted, with its first n entries.
    ghost predicate Begun(rec: TblRec, n: nat)
      reads this, repr, rec
    {
      && rec !in repr && fields.Values <= repr && rec !in recs && n == |rec.vals| == |rec.vlist| && n <= |rec.flds|
      && (forall f :: f in rec.flds ==> f in fields) && forall i :: 0 <= i < n ==> EntryOk(rec, i)
    }

    // One turn of the loop of tbl_insert.
    method InsertNext(rec: TblRec, data: string, ghost live: seq<TblRec>)
      requires Begun(rec, |rec.vals|) && |rec.vals| < |rec.flds| && NoTwice(rec.flds) && rec !in live
      requires Part(Firsts(rec.flds, |rec.vals|), live, live + [rec]) && forall r :: r in recs ==> RecOk(r)
      requires rec.flds[|rec.vals|] in rec.row && data == rec.row[rec.flds[|rec.vals|]]
      modifies `repr, repr, rec`vals, rec`vlist
      ensures fields == old(fields) && recs == old(recs) && fresh(repr - old(repr)) && old(repr) <= repr
      ensures |rec.vals| == old(|rec.vals|) + 1 && Begun(rec, |rec.vals|)
      ensures Part(Firsts(rec.flds, |rec.vals|), live, live + [rec]) && forall r :: r in recs ==> RecOk(r)
      ensures var g := old(rec.flds[|rec.vals|]);
        fields[g].Held() == if fields[g].stat then old(fields[g].Held()) else Taken(old(fields[g].Held()), data, rec)
      ensures forall g :: g in fields && g != old(rec.flds[|rec.vals|]) ==> fields[g].Held() == old(fields[g].Held())
    {
      hide FieldOk, Part, RecOk, Taken, TblFld.Held;
      ghost var i := |rec.vals|;
      var f := rec.flds[|rec.vals|];
      FirstsNext(rec.flds, i);
      Outside(Firsts(rec.flds, i), live, live + [rec]);
      var val, ent := InsertField(f, rec, data, Firsts(rec.flds, i), live);
      RecsKept(rec);
      rec.vals, rec.vlist := rec.vals + [val], rec.vlist + [ent];
      forall j | 0 <= j <= i ensures EntryOk(rec, j) {
        if j < i {
          assert old(EntryOk(rec, j)) && fields[rec.flds[j]] != fields[f];
        }
      }
    }

    lemma PartNone(flds: seq<string>, live: seq<TblRec>, live': seq<TblRec>)
      requires Valid() && live == Live()
      ensures Part(Firsts(flds, 0), live, live')
    {
    }

    // The loop of tbl_insert.
    method InsertAll(rec: TblRec, data: seq<string>, ghost live: seq<TblRec>)
      requires Begun(rec, 0) && NoTwice(rec.flds) && rec !in live && |rec.flds| <= |data|
      requires rec.row == Row(rec.flds, data)
      requires (forall f :: f in fields ==> f in rec.flds) && forall r :: r in recs ==> RecOk(r)
      requires Part(Firsts(rec.flds, 0), live, live + [rec])
      modifies `repr, repr, rec`vals, rec`vlist
      ensures fields == old(fields) && recs == old(recs) && fresh(repr - old(repr)) && Begun(rec, |rec.flds|)
      ensures Part(Firsts(rec.flds, |rec.flds|), live, live + [rec]) && forall r :: r in recs ==> RecOk(r)
      ensures forall g :: g in fields ==> g in rec.row
      ensures forall g :: g in fields ==>
        fields[g].Held() == if fields[g].stat then old(fields[g].Held())
          else Taken(old(fields[g].Held()), rec.row[g], rec)
    {
      hide FieldOk, RecOk, EntryOk, Row, Taken, Part, TblFld.Held;
      RowWhole(rec.flds, data);
      for i := 0 to |rec.flds|
        invariant fields == old(fields) && fresh(repr - old(repr)) && recs == old(recs) && Begun(rec, i)
        invariant Part(Firsts(rec.flds, i), live, live + [rec]) && forall r :: r in recs ==> RecOk(r)
        invariant forall g :: g in fields ==>
          fields[g].Held() == if g in Firsts(rec.flds, i) && !fields[g].stat
            then Taken(old(fields[g].Held()), rec.row[g], rec)
                              else old(fields[g].Held())
      {
        RowAt(rec.flds, data, i);
        FirstsNext(rec.flds, i);
        InsertNext(rec, data[i], live);
      }
    }

    // tbl_insert. The record enters every field's index, the newest in the ring of its value.
    method Insert(flds: seq<string>, data: seq<string>) returns (rec: TblRec)
      requires Valid() && NoTwice(flds) && |flds| <= |data|
      requires (forall f :: f in flds ==> f in fields) && forall f :: f in fields ==> f in flds
      modifies this, repr
      ensures Valid() && fresh(rec) && rec.row == Row(flds, data) && Live() == old(Live()) + [rec]
      ensures fields == old(fields) && fresh(repr - old(repr))
      ensures forall i :: 0 <= i < |flds| ==> flds[i] in rec.row && rec.row[flds[i]] == data[i]
      ensures forall g :: g in fields ==> g in rec.row
      ensures forall g :: g in fields ==>
        fields[g].Held() == if fields[g].stat then old(fields[g].Held())
          else Taken(old(fields[g].Held()), rec.row[g], rec)
    {
      hide FieldOk, RecOk, EntryOk, Row, Taken, TblFld.Held;
      rec := new TblRec(flds, data);
      forall i | 0 <= i < |flds| ensures flds[i] in rec.row && rec.row[flds[i]] == data[i] {
        RowAt(flds, data, i);
      }
      ghost var live := Live();
      NotLive(recs, rec);
      RowWhole(flds, data);
      PartNone(flds, live, live + [rec]);
      InsertAll(rec, data, live);
      label Done:
      repr := repr + {rec};
      recs := [rec] + recs;
      Entered@Done(rec);
    }

    twostate lemma Entered(rec: TblRec)
      requires fields == old(fields) && repr == old(repr) + {rec} && recs == [rec] + old(recs) && NoTwice(old(recs))
      requires old(Part(Firsts(rec.flds, |rec.flds|), Rev(recs), Rev(recs) + [rec]))
      requires old(Begun(rec, |rec.flds|)) && NoTwice(rec.flds) && forall f :: f in fields ==> f in rec.flds
      requires forall r :: r in old(recs) ==> old(RecOk(r))
      requires forall o :: o in repr ==> unchanged(o)
      ensures Valid()
    {
      hide FieldOk, EntryOk;
      var live := Rev(old(recs));
      assert Live() == live + [rec];
      forall f | f in fields ensures FieldOk(f, live + [rec]) {
        assert f in Firsts(rec.flds, |rec.flds|);
        assert fields[f] in fields.Values;
        FieldStill(f, live + [rec]);
      }
      assert NoTwice(recs);
      assert Apart() by {
        forall f | f in fields ensures unchanged(fields[f]) {
          assert fields[f] in fields.Values;
        }
      }
      forall r | r in recs ensures RecOk(r) {
        if r != rec {
          assert old(RecOk(r));
        }
        RecStill(r);
      }
    }

    twostate lemma FieldStill(new f: string, live: seq<TblRec>)
      requires fields == old(fields) && f in fields && fields[f] in old(repr) && old(repr) <= repr
      requires old(FieldOk(f, live))
      requires forall o :: o in old(repr) ==> unchanged(o)
      ensures FieldOk(f, live)
    {
      hide TblFld.Coherent, Indexed, Matching;
    }

    twostate lemma RecStill(r: TblRec)
      requires fields == old(fields) && fields.Values <= old(repr) <= repr && r in repr
      requires unchanged(r) && forall o :: o in old(repr) ==> unchanged(o)
      requires NoTwice(r.flds) && |r.vals| == |r.vlist| == |r.flds|
      requires (forall f :: f in r.flds ==> f in fields) && forall f :: f in fields ==> f in r.flds
      requires forall i :: 0 <= i < |r.flds| ==> old(EntryOk(r, i))
      ensures RecOk(r)
    {
      forall i | 0 <= i < |r.flds| ensures EntryOk(r, i) {
        assert old(EntryOk(r, i)) && fields[r.flds[i]] in fields.Values;
      }
    }

    twostate lemma UntouchedListeners(c: TblFld)
      requires Untouched(c) && c.Holds()
      ensures c.Held() == old(c.Held())
    {
      forall k | k in c.lis ensures c.lis[k].rec == old(c.lis[k].rec) {
        assert c.lis[k] in c.lis.Values;
      }
    }

    // One field of tbl_del_rec.
    method DropField(f: string, rec: TblRec, ent: Ventry?, cur: Ventry?, ghost done: set<string>,
                     ghost live: seq<TblRec>)
      returns (next: Ventry?)
      requires f in fields && f !in done && Part(done, live, Without(live, rec)) && rec in live && NoTwice(live)
      requires if fields[f].stat then ent == null else rec in fields[f].at && ent == fields[f].at[rec]
      modifies fields[f], fields[f].owned
      ensures Part(done + {f}, live, Without(live, rec))
      ensures fields[f].at == if fields[f].stat then old(fields[f].at) else old(fields[f].at) - {rec}
      ensures next == if ent == null || cur != ent then cur else fields[f].Head(ent.val.key)
      ensures fields[f].Held() == LeftOf(old(fields[f].Held()), f, fields[f].stat, Without(live, rec))
      ensures forall g :: g in fields && g != f ==> fields[g].Held() == old(fields[g].Held())
    {
      hide TblFld.Valid, TblFld.NoneStale, TblFld.Listeners, TblFld.Holds, FieldOk, Without, Matching;
      var c := fields[f];
      FieldParts(f, live);
      Outside(done, live, Without(live, rec));
      next := c.Drop(rec, ent, cur, live);
      assert forall g :: g in fields && g != f ==> Untouched(fields[g]);
      FieldWhole(f, Without(live, rec));
      RestKept(f, done, (live, Without(live, rec)));
      forall g | g in fields && g != f ensures fields[g].Held() == old(fields[g].Held()) {
        FieldParts(g, if g in done then Without(live, rec) else live);
        UntouchedListeners(fields[g]);
      }
    }

    // The record that is being deleted, with its entries from the n-th on.
    ghost predicate Ending(rec: TblRec, n: nat)
      reads this, repr
    {
      && rec in repr && fields.Values <= repr && NoTwice(rec.flds) && n <= |rec.flds| == |rec.vals| == |rec.vlist|
      && (forall f :: f in rec.flds ==> f in fields) && forall i :: n <= i < |rec.flds| ==> EntryOk(rec, i)
    }

    // Where the walk over a ring stands: at the record's entry, or, once that is gone, at the head.
    ghost predicate WalksOn(f: string, rec: TblRec, cur: Ventry?, done: set<string>)
      requires f in fields && fields.Values <= repr
      reads this, repr
    {
      var c := fields[f];
      && !c.stat && f in rec.row
      && if f in done then cur == c.Head(rec.row[f]) else rec in c.at && cur == c.at[rec]
    }

    ghost method EntryOf(f: string, rec: TblRec, live: seq<TblRec>)
      requires f in fields && FieldOk(f, live) && rec in live && !fields[f].stat
      ensures rec in fields[f].at && f in rec.row
      ensures fields[f].at[rec].val.fld == fields[f] && fields[f].at[rec].val.key == rec.row[f]
    {
      ghost var i := fields[f].Position(rec, live);
    }

    lemma HeadOf(f: string, k: string, live: seq<TblRec>)
      requires f in fields && FieldOk(f, live) && fields[f].Head(k) != null
      ensures fields[f].Head(k).val.fld == fields[f]
    {
      assert fields[f].Node(k);
    }

    // The walk stands at the entry that goes only if that is the field it walks in.
    ghost method Standing(f0: string, f: string, rec: TblRec, live: seq<TblRec>, done: set<string>, cur: Ventry?)
      requires f in fields && f !in done && f0 in fields && rec in live && Part(done, live, Without(live, rec))
      requires fields.Values <= repr && WalksOn(f0, rec, cur, done)
      ensures !fields[f].stat ==> rec in fields[f].at && f in rec.row && fields[f].at[rec].val.key == rec.row[f]
      ensures !fields[f].stat ==> (cur == fields[f].at[rec] <==> f == f0)
    {
      hide FieldOk;
      if !fields[f].stat {
        EntryOf(f, rec, live);
        if f0 !in done {
          EntryOf(f0, rec, live);
        } else if cur != null {
          HeadOf(f0, rec.row[f0], Without(live, rec));
        }
      }
    }

    // One turn of the loop of tbl_del_rec.
    method DropNext(rec: TblRec, i: nat, cur: Ventry?, ghost live: seq<TblRec>, ghost f0: string)
      returns (next: Ventry?)
      requires Ending(rec, i) && i < |rec.flds| && rec in live && NoTwice(live) && f0 in fields
      requires Part(Firsts(rec.flds, i), live, Without(live, rec)) && forall r :: r in recs && r != rec ==> RecOk(r)
      requires WalksOn(f0, rec, cur, Firsts(rec.flds, i))
      modifies repr
      ensures fields == old(fields) && recs == old(recs) && repr == old(repr) && Ending(rec, i + 1)
      ensures Part(Firsts(rec.flds, i + 1), live, Without(live, rec)) && forall r :: r in recs && r != rec ==> RecOk(r)
      ensures WalksOn(f0, rec, next, Firsts(rec.flds, i + 1))
      ensures var g := rec.flds[i];
        fields[g].Held() == LeftOf(old(fields[g].Held()), g, fields[g].stat, Without(live, rec))
      ensures forall g :: g in fields && g != rec.flds[i] ==> fields[g].Held() == old(fields[g].Held())
    {
      hide FieldOk, Part, RecOk, Without;
      var f := rec.flds[i];
      FirstsNext(rec.flds, i);
      Outside(Firsts(rec.flds, i), live, Without(live, rec));
      assert EntryOk(rec, i);
      Standing(f0, f, rec, live, Firsts(rec.flds, i), cur);
      next := DropField(f, rec, rec.vlist[i], cur, Firsts(rec.flds, i), live);
      RecsKept(rec);
      forall j | i < j < |rec.flds| ensures EntryOk(rec, j) {
        assert old(EntryOk(rec, j)) && fields[rec.flds[j]] != fields[f];
      }
    }

    // tbl_del_rec. Returns the entry at which the walk over a ring of field f0 goes on.
    method DelRec(rec: TblRec, cur: Ventry?, ghost f0: string) returns (next: Ventry?)
      requires Valid() && rec in recs && f0 in fields && !fields[f0].stat
      requires rec in fields[f0].at && f0 in rec.row && cur == fields[f0].at[rec]
      modifies this, repr
      ensures Valid() && Live() == Without(old(Live()), rec) && fields == old(fields) && repr == old(repr)
      ensures next == fields[f0].Head(rec.row[f0])
      ensures forall g :: g in fields ==> fields[g].Held() == LeftOf(old(fields[g].Held()), g, fields[g].stat, Live())
    {
      hide FieldOk, EntryOk, Without, WalksOn, LeftOf, TblFld.Held, Part;
      ghost var live := Live();
      PartNone(rec.flds, live, Without(live, rec));
      RevOf(recs);
      Starts(f0, rec, cur);
      assert Firsts(rec.flds, 0) == {};
      next := cur;
      for i := 0 to |rec.flds|
        invariant fields == old(fields) && recs == old(recs) && repr == old(repr) && Ending(rec, i)
        invariant Part(Firsts(rec.flds, i), live, Without(live, rec)) && forall r :: r in recs && r != rec ==> RecOk(r)
        invariant WalksOn(f0, rec, next, Firsts(rec.flds, i))
        invariant forall g :: g in fields ==>
          fields[g].Held() == if g in Firsts(rec.flds, i)
            then LeftOf(old(fields[g].Held()), g, fields[g].stat, Without(live, rec))
          else old(fields[g].Held())
      {
        FirstsNext(rec.flds, i);
        next := DropNext(rec, i, next, live, f0);
      }
      assert forall g :: g in fields ==> g in Firsts(rec.flds, |rec.flds|);
      Ends(f0, rec, next, Firsts(rec.flds, |rec.flds|));
      label Done:
      recs := Unlisted(recs, rec);
      Deleted@Done(rec);
    }

    twostate lemma Deleted(rec: TblRec)
      requires fields == old(fields) && repr == old(repr) && recs == Unlisted(old(recs), rec) && NoTwice(old(recs))
      requires old(Part(Firsts(rec.flds, |rec.flds|), Rev(recs), Without(Rev(recs), rec)))
      requires old(Ending(rec, |rec.flds|))
      requires (forall f :: f in fields ==> f in rec.flds) && forall r :: r in old(recs) && r != rec ==> old(RecOk(r))
      requires forall o :: o in repr ==> unchanged(o)
      ensures Valid() && Live() == Without(Rev(old(recs)), rec)
    {
      hide FieldOk, EntryOk, Without;
      var live := Rev(old(recs));
      UnlistedIs(old(recs), rec);
      UnlistedIn(old(recs), rec);
      forall f | f in fields ensures FieldOk(f, Without(live, rec)) && unchanged(fields[f]) {
        assert f in Firsts(rec.flds, |rec.flds|) && fields[f] in fields.Values;
        FieldStill(f, Without(live, rec));
      }
      forall r | r in recs ensures RecOk(r) {
        assert old(RecOk(r));
        RecStill(r);
      }
    }

    lemma Ends(f0: string, rec: TblRec, cur: Ventry?, done: set<string>)
      requires f0 in fields && fields.Values <= repr && f0 in done && WalksOn(f0, rec, cur, done)
      ensures f0 in rec.row && cur == fields[f0].Head(rec.row[f0])
    {
    }

    lemma Starts(f0: string, rec: TblRec, cur: Ventry?)
      requires fields.Values <= repr && f0 in fields && !fields[f0].stat
      requires rec in fields[f0].at && f0 in rec.row && cur == fields[f0].at[rec]
      ensures WalksOn(f0, rec, cur, {})
    {
    }

    // The head of a ring is the entry of the oldest record with the value.
    lemma HeadIs(f: string, k: string)
      requires Valid() && f in fields && !fields[f].stat
      ensures var c, m := fields[f], Matching(Live(), f, k);
        && (k in c.vals <==> m != []) && (m == [] ==> c.Head(k) == null)
        && (m != [] ==>
              && c.Head(k) != null && c.Head(k).rec == m[0] && m[0] in recs && m[0] in c.at
              && c.at[m[0]] == c.Head(k) && c.vals[k].rlist == c.Head(k) && c.vals[k].count == |m|
              && Carries(m[0], f, k))
    {
      hide Matching, Entries;
      var c := fields[f];
      assert FieldOk(f, Live());
      RevOf(recs);
      MatchingIn(Live(), f, k);
      if k in c.vals {
        c.OwnVal(k, 0);
        RingOwner(c.at, Matching(Live(), f, k), 0);
      } else {
        NoMatches(Live(), f, k);
      }
    }

    // The listener on the value that goes is cleared first.
    method Release(f: string, k: string)
      requires Valid() && f in fields
      modifies fields[f].owned
      ensures Valid() && fields[f].Held() == Cleared(old(fields[f].Held()), k)
      ensures forall g :: g in fields && g != f ==> fields[g].Held() == old(fields[g].Held())
      ensures forall g :: g in fields ==> unchanged(fields[g])
    {
      hide TblFld.Valid, TblFld.NoneStale, TblFld.Listeners, TblFld.Holds, TblFld.Held, FieldOk, RecOk;
      ghost var live := Live();
      FieldParts(f, live);
      Outside({}, live, live);
      fields[f].Clear(k, live);
      assert forall g :: g in fields && g != f ==> Untouched(fields[g]);
      FieldWhole(f, live);
      RestKept(f, {}, (live, live));
      RecsKept(null);
      forall g | g in fields && g != f ensures fields[g].Held() == old(fields[g].Held()) {
        FieldParts(g, live);
        UntouchedListeners(fields[g]);
      }
    }

    // Nobody holds a record where none is left.
    lemma NothingStale(g: string)
      requires Valid() && g in fields
      ensures LeftOf(fields[g].Held(), g, fields[g].stat, Live()) == fields[g].Held()
    {
      hide Matching;
      assert FieldOk(g, Live());
    }

    // tbl_del_val: exactly the records with the value go; the others keep their order.
    method DelVal(f: string, k: string)
      requires Valid()
      modifies this, repr
      ensures Valid() && fields == old(fields) && repr == old(repr)
      ensures Live() == if f in fields && !fields[f].stat then Others(old(Live()), f, k) else old(Live())
      ensures forall g :: g in fields ==>
        fields[g].Held() ==
          LeftOf(if g == f then Cleared(old(fields[g].Held()), k) else old(fields[g].Held()), g, fields[g].stat, Live())
    {
      hide FieldOk, RecOk, Matching, Others, LeftOf, TblFld.Held, TblFld.Valid;
      forall g | g in fields ensures LeftOf(fields[g].Held(), g, fields[g].stat, Live()) == fields[g].Held() {
        NothingStale(g);
      }
      if f !in fields {
        return;
      }
      Absent(f, k);
      if k !in fields[f].vals {
        return;
      }
      Release(f, k);
      DelAll(f, k);
    }

    // Without the value there is nothing to delete and nobody to tell.
    lemma Absent(f: string, k: string)
      requires Valid() && f in fields
      ensures fields[f].owned <= repr && (k in fields[f].vals ==> !fields[f].stat)
      ensures k !in fields[f].vals ==> Cleared(fields[f].Held(), k) == fields[f].Held()
      ensures k !in fields[f].vals && !fields[f].stat ==> Others(Live(), f, k) == Live()
    {
      hide Matching, Others;
      assert FieldOk(f, Live());
      if !fields[f].stat {
        HeadIs(f, k);
        if k !in fields[f].vals {
          NoneMatching(Live(), f, k);
        }
      }
    }

    // The loop of tbl_del_val, over the ring of the value.
    method DelAll(f: string, k: string)
      requires Valid() && f in fields && !fields[f].stat && k in fields[f].vals
      modifies this, repr
      ensures Valid() && fields == old(fields) && repr == old(repr)
      ensures Live() == Others(old(Live()), f, k)
      ensures forall g :: g in fields ==> fields[g].Held() == LeftOf(old(fields[g].Held()), g, fields[g].stat, Live())
    {
      hide FieldOk, RecOk, Matching, Others, LeftOf, TblFld.Held, TblFld.Valid;
      HeadIs(f, k);
      var v := fields[f].vals[k];
      var it, count := v.rlist, v.count;
      forall g | g in fields ensures LeftOf(fields[g].Held(), g, fields[g].stat, Live()) == fields[g].Held() {
        NothingStale(g);
      }
      for i := 0 to count
        invariant Valid() && fields == old(fields) && repr == old(repr)
        invariant |Matching(Live(), f, k)| == count - i && it == fields[f].Head(k)
        invariant Others(Live(), f, k) == Others(old(Live()), f, k)
        invariant forall g ::
          g in fields ==> fields[g].Held() == LeftOf(old(fields[g].Held()), g, fields[g].stat, Live())
      {
        HeadIs(f, k);
        ghost var live := Live();
        RevOf(recs);
        it := DelRec(it.rec, it, f);
        OneLess(live, f, k);
        forall g | g in fields
          ensures LeftOf(LeftOf(old(fields[g].Held()), g, fields[g].stat, live), g, fields[g].stat, Live())
               == LeftOf(old(fields[g].Held()), g, fields[g].stat, Live())
        {
          LeftTwice(old(fields[g].Held()), g, fields[g].stat, live, Matching(live, f, k)[0]);
        }
      }
      NoneMatching(Live(), f, k);
    }

    // tbl_add_lis
    method AddListener(f: string, k: string)
      requires Valid()
      modifies this, repr
      ensures Valid() && fields == old(fields) && recs == old(recs) && fresh(repr - old(repr))
      ensures f in fields ==> fields[f].Held() == Listening(old(fields[f].Held()), k, f, fields[f].stat, Live())
      ensures forall g :: g in fields && g != f ==> fields[g].Held() == old(fields[g].Held())
    {
      hide TblFld.Valid, TblFld.NoneStale, TblFld.Listeners, TblFld.Holds, TblFld.Held, Listening, FieldOk, RecOk;
      if f !in fields {
        return;
      }
      ghost var live := Live();
      FieldParts(f, live);
      Outside({}, live, live);
      fields[f].Listen(k, live);
      repr := repr + fields[f].owned;
      assert forall g :: g in fields && g != f ==> Untouched(fields[g]);
      FieldWhole(f, live);
      RestKept(f, {}, (live, live));
      RecsKept(null);
      forall g | g in fields && g != f ensures fields[g].Held() == old(fields[g].Held()) {
        FieldParts(g, live);
        UntouchedListeners(fields[g]);
      }
    }

    // rec_fld: what a record holds in a field, indexed or not.
    method RecFld(rec: TblRec?, fld: string) returns (held: Datum)
      requires Valid() && (rec != null ==> rec in recs)
      ensures rec == null || fld !in fields ==> held == NoDatum
      ensures rec != null && fld in fields ==> fld in rec.row && held == Datum(rec.row[fld])
    {
      hide FieldOk, RecOk;
      if rec == null {
        return NoDatum;
      }
      FieldsOf(rec);
      for i := 0 to |rec.vals|
        invariant fld !in rec.flds[..i]
      {
        EntryHolds(rec, i);
        if rec.vals[i].fld.key == fld {
          return Datum(rec.vals[i].key);
        }
      }
      return NoDatum;
    }

    lemma FieldsOf(rec: TblRec)
      requires Valid() && rec in recs
      ensures |rec.vals| == |rec.vlist| == |rec.flds| && forall f :: f in fields <==> f in rec.flds
    {
      assert RecOk(rec);
    }

    ghost method EntryHolds(rec: TblRec, i: nat)
      requires Valid() && rec in recs && i < |rec.flds| && |rec.vals| == |rec.flds|
      ensures rec.vals[i] != null && rec.flds[i] in rec.row
      ensures rec.vals[i].fld.key == rec.flds[i] && rec.vals[i].key == rec.row[rec.flds[i]]
    {
      hide FieldOk;
      var f := rec.flds[i];
      assert RecOk(rec) && EntryOk(rec, i);
      FieldParts(f, Live());
      if !fields[f].stat {
        RevOf(recs);
        EntryOf(f, rec, Live());
      }
    }

    ghost function Indexed(): set<string>
      reads `fields
    {
      set f | f in fields && !fields[f].stat
    }

    ghost predicate BoundIn(g: string)
      requires Valid() && g in fields
      reads this, repr
    {
      assert FieldOk(g, Live());
      AllBound(fields[g].Held(), g, Live())
    }

    ghost predicate HarmlessTo(op: Op, g: string)
      requires Valid() && g in fields
      reads this, repr
    {
      assert FieldOk(g, Live());
      Harmless(op, g, fields[g].Held(), Live(), Indexed())
    }

    // One operation, seen from the listeners of a field.
    method Apply(op: Op, ghost g: string)
      requires Valid() && Fills(op, fields.Keys) && g in Indexed()
      modifies this, repr
      ensures Valid() && fields == old(fields) && fresh(repr - old(repr))
      ensures Rows(Live()) == RowsAfter(old(Rows(Live())), op, Indexed())
      ensures old(BoundIn(g)) ==> (BoundIn(g) <==> old(HarmlessTo(op, g)))
      ensures fields[g].Held().Keys ==
        old(fields[g].Held().Keys) + if op.ListenOp? && op.f == g then {op.k} else {}
    {
      hide Matching, Others, Taken, LeftOf, Listening, TblFld.Held, FieldOk, Row, RecOk;
      ghost var held, live := fields[g].Held(), Live();
      match op
      case InsertOp(flds, data) =>
        var rec := Insert(flds, data);
        ListenersStay(held, rec.row[g], rec);
        if AllBound(held, g, live) {
          InsertedBound(held, g, live, rec);
        }
      case DeleteOp(f, k) =>
        RowsOfOthers(live, f, k);
        DelVal(f, k);
        ListenersLeft(held, g, k, Live());
        if AllBound(held, g, live) {
          DeletedHarmless(held, g, live, op, Indexed());
        }
      case ListenOp(f, k) =>
        AddListener(f, k);
        ListenerAdded(held, k, f, fields[g].stat, Live());
        if AllBound(held, g, live) {
          ListeningBound(held, k, g, live);
        }
    }

    // Any run of operations: the records left are those that were inserted and not deleted since, in order. The
    // listeners of an indexed field are bound as long as every operation is harmless to them, as all are if
    // records are deleted by this field only.
    method Run(ops: seq<Op>, ghost g: string) returns (ghost safe: bool)
      requires Valid() && g in Indexed() && BoundIn(g) && forall i :: 0 <= i < |ops| ==> Fills(ops[i], fields.Keys)
      modifies this, repr
      ensures Valid() && fields == old(fields)
      ensures Rows(Live()) == RowsAfterAll(old(Rows(Live())), ops, Indexed())
      ensures safe ==> BoundIn(g)
      ensures (forall i :: 0 <= i < |ops| && ops[i].DeleteOp? ==> ops[i].f == g) ==> safe
    {
      hide Valid, BoundIn, HarmlessTo, Rows, RowsAfter, Fills;
      safe := true;
      for i := 0 to |ops|
        invariant Valid() && fields == old(fields) && fresh(repr - old(repr))
        invariant Rows(Live()) == RowsAfterAll(old(Rows(Live())), ops[..i], Indexed())
        invariant safe ==> BoundIn(g)
        invariant (forall j :: 0 <= j < |ops| && ops[j].DeleteOp? ==> ops[j].f == g) ==> safe
      {
        assert ops[..i + 1][..i] == ops[..i] && ops[..i + 1][i] == ops[i];
        if ops[i].DeleteOp? ==> ops[i].f == g {
          OwnField(ops[i], g);
        }
        safe := safe && HarmlessTo(ops[i], g);
        Apply(ops[i], g);
      }
      assert ops[..|ops|] == ops;
    }

    lemma OwnField(op: Op, g: string)
      requires Valid() && g in fields && (op.DeleteOp? ==> op.f == g)
      ensures HarmlessTo(op, g)
    {
    }
  }

  // Every listener holds a record with its value exactly when there is one.
  ghost predicate AllBound(held: map<string, TblRec?>, f: string, live: seq<TblRec>) {
    forall k :: k in held ==> Fits(held[k], f, live, k)
  }

  ghost predicate Fits(r: TblRec?, f: string, live: seq<TblRec>, k: string) {
    if Matching(live, f, k) == [] then r == null else r != null && r in Matching(live, f, k)
  }

  // Inserting a record leaves every listener bound.
  lemma InsertedBound(held: map<string, TblRec?>, f: string, live: seq<TblRec>, rec: TblRec)
    requires AllBound(held, f, live) && f in rec.row
    ensures AllBound(Taken(held, rec.row[f], rec), f, live + [rec])
  {
    hide Matching;
    forall k | k in held
      ensures Matching(live + [rec], f, k) == if k == rec.row[f] then Matching(live, f, k) + [rec]
        else Matching(live, f, k)
    {
      MatchingAdded(live, rec, f, k);
      assert Matching(live, f, k) + [] == Matching(live, f, k);
    }
  }

  // Deleting the records with a value leaves the listeners of a field bound exactly when no
  // listener held a deleted record while other records with its value stay. That never happens
  // to the listeners of the field by which the records are deleted.
  lemma DeletedBound(held: map<string, TblRec?>, g: string, live: seq<TblRec>, f: string, k: string)
    requires AllBound(held, g, live)
    ensures var left := Others(live, f, k);
      AllBound(LeftOf(if g == f then Cleared(held, k) else held, g, false, left), g, left) <==>
        (g == f || forall l :: l in held ==> Matching(left, g, l) == [] || held[l] == null || !Carries(held[l], f, k))
  {
    hide Matching, Others, Fits;
    var left := Others(live, f, k);
    var before := if g == f then Cleared(held, k) else held;
    var after := LeftOf(before, g, false, left);
    forall l | l in held
      ensures Fits(after[l], g, left, l) <==>
        (g == f || Matching(left, g, l) == [] || held[l] == null || !Carries(held[l], f, k))
    {
      FitsAfter(held[l], g, live, f, k, l);
    }
  }

  // A new listener is bound like the others.
  lemma ListeningBound(held: map<string, TblRec?>, k: string, f: string, live: seq<TblRec>)
    requires AllBound(held, f, live)
    ensures AllBound(Listening(held, k, f, false, live), f, live)
  {
    hide Matching;
  }

  datatype Op = InsertOp(flds: seq<string>, data: seq<string>) | DeleteOp(f: string, k: string)
    | ListenOp(f: string, k: string)

  datatype Datum = NoDatum | Datum(data: string)

  // A transaction fills every field of the table once.
  predicate Fills(op: Op, fields: set<string>) {
    op.InsertOp? ==>
      && NoTwice(op.flds) && |op.flds| <= |op.data|
      && (forall f :: f in op.flds ==> f in fields) && forall f :: f in fields ==> f in op.flds
  }

  // The rows of the records after an operation on a table where these fields are indexed.
  ghost function RowsAfter(rows: seq<map<string, string>>, op: Op, indexed: set<string>): seq<map<string, string>>
  {
    match op
    case InsertOp(flds, data) => rows + if |flds| <= |data| then [Row(flds, data)] else []
    case DeleteOp(f, k) => if f in indexed then RowsWithout(rows, f, k) else rows
    case ListenOp(_, _) => rows
  }

  ghost function RowsWithout(rows: seq<map<string, string>>, f: string, k: string): seq<map<string, string>> {
    if rows == [] then []
    else
      var row := rows[|rows| - 1];
      RowsWithout(rows[..|rows| - 1], f, k) + if f in row && row[f] == k then [] else [row]
  }

  ghost function RowsAfterAll(rows: seq<map<string, string>>, ops: seq<Op>, indexed: set<string>)
    : seq<map<string, string>>
  {
    if ops == [] then rows
    else RowsAfter(RowsAfterAll(rows, ops[..|ops| - 1], indexed), ops[|ops| - 1], indexed)
  }

  ghost function Rows(rs: seq<TblRec>): (rows: seq<map<string, string>>)
    ensures |rows| == |rs|
  {
    seq(|rs|, i requires 0 <= i < |rs| => rs[i].row)
  }

  lemma {:induction false} RowsOfOthers(rs: seq<TblRec>, f: string, k: string)
    ensures Rows(Others(rs, f, k)) == RowsWithout(Rows(rs), f, k)
  {
    if rs == [] {
    } else {
      var before := rs[..|rs| - 1];
      RowsOfOthers(before, f, k);
      assert Rows(rs)[..|rs| - 1] == Rows(before);
      var tail := if Carries(rs[|rs| - 1], f, k) then [] else [rs[|rs| - 1]];
      assert Rows(Others(before, f, k) + tail) == Rows(Others(before, f, k)) + Rows(tail);
    }
  }

  // Whether an operation leaves the listeners of a field bound, as all but deletions do: the field is the one deleted
  // by, or no listener holds a record that goes while others with its value stay.
  ghost predicate Harmless(op: Op, g: string, held: map<string, TblRec?>, live: seq<TblRec>, indexed: set<string>) {
    op.DeleteOp? && op.f in indexed && op.f != g ==>
      forall l :: l in held ==>
        Matching(Others(live, op.f, op.k), g, l) == [] || held[l] == null || !Carries(held[l], op.f, op.k)
  }

  lemma DeletedHarmless(held: map<string, TblRec?>, g: string, live: seq<TblRec>, op: Op, indexed: set<string>)
    requires AllBound(held, g, live) && op.DeleteOp? && g in indexed
    ensures var left := if op.f in indexed then Others(live, op.f, op.k) else live;
      var after := LeftOf(if g == op.f then Cleared(held, op.k) else held, g, false, left);
      AllBound(after, g, left) <==> Harmless(op, g, held, live, indexed)
  {
    hide Matching, Others;
    if op.f in indexed {
      DeletedBound(held, g, live, op.f, op.k);
    } else {
      assert LeftOf(held, g, false, live) == held;
    }
  }

  // Two records carry y in b, and the older one is with the listener on y. Deleted by its value x in a, the
  // listener keeps it.
  lemma DeletedRecordKept(r: TblRec, s: TblRec)
    requires r.row == map["a" := "x", "b" := "y"] && s.row == map["a" := "z", "b" := "y"]
    ensures AllBound(map["y" := r], "b", [r, s]) && Others([r, s], "a", "x") == [s]
    ensures LeftOf(map["y" := r], "b", false, [s])["y"] == r
    ensures !AllBound(LeftOf(map["y" := r], "b", false, [s]), "b", [s])
  {
    hide Matching, Others;
    OfTwo(r, s, "b", "y");
    OfTwo(r, s, "a", "x");
    OfOne(s, "b", "y");
  }

  lemma OfOne(r: TblRec, f: string, k: string)
    ensures Matching([r], f, k) == if Carries(r, f, k) then [r] else []
    ensures Others([r], f, k) == if Carries(r, f, k) then [] else [r]
  {
    assert [r][..0] == [];
  }

  lemma OfTwo(r: TblRec, s: TblRec, f: string, k: string)
    ensures Matching([r, s], f, k) == (if Carries(r, f, k) then [r] else []) + if Carries(s, f, k) then [s] else []
    ensures Others([r, s], f, k) == (if Carries(r, f, k) then [] else [r]) + if Carries(s, f, k) then [] else [s]
  {
    hide Carries;
    OfOne(r, f, k);
    assert [r, s][..1] == [r];
  }

  lemma FitsAfter(r: TblRec?, g: string, live: seq<TblRec>, f: string, k: string, l: string)
    requires Fits(r, g, live, l)
    ensures var left := Others(live, f, k);
      Fits(if Matching(left, g, l) == [] || (g == f && l == k) then null else r, g, left, l) <==>
        (g == f || Matching(left, g, l) == [] || r == null || !Carries(r, f, k))
  {
    hide Matching, Others;
    var left := Others(live, f, k);
    OthersIn(live, f, k);
    MatchingIn(live, g, l);
    MatchingIn(left, g, l);
    if Matching(left, g, l) != [] {
      assert Matching(left, g, l)[0] in Matching(live, g, l);
    }
  }

  lemma {:induction false} OthersIn(rs: seq<TblRec>, f: string, k: string)
    ensures AreOthers(Others(rs, f, k), rs, f, k)
  {
    if rs != [] {
      var b := rs[..|rs| - 1];
      assert rs == b + [rs[|rs| - 1]];
      OthersIn(b, f, k);
    }
  }

  ghost predicate AreOthers(s: seq<TblRec>, rs: seq<TblRec>, f: string, k: string) {
    && (forall r :: r in s ==> r in rs && !Carries(r, f, k))
    && (forall r :: r in rs && !Carries(r, f, k) ==> r in s)
  }

  lemma OneLess(live: seq<TblRec>, f: string, k: string)
    requires NoTwice(live) && Matching(live, f, k) != []
    ensures var r := Matching(live, f, k)[0];
      && |Matching(Without(live, r), f, k)| == |Matching(live, f, k)| - 1
      && Others(Without(live, r), f, k) == Others(live, f, k)
  {
    var r := Matching(live, f, k)[0];
    MatchingIn(live, f, k);
    MatchingWithout(live, r, f, k);
    WithoutAt(Matching(live, f, k), 0);
    OthersWithout(live, r, f, k);
  }

  // Losing a record twice over is losing what both leave none of.
  lemma LeftTwice(held: map<string, TblRec?>, g: string, stat: bool, live: seq<TblRec>, r: TblRec)
    ensures LeftOf(LeftOf(held, g, stat, live), g, stat, Without(live, r)) == LeftOf(held, g, stat, Without(live, r))
  {
    hide Matching, Without;
    forall k | k in held ensures Matching(live, g, k) == [] ==> Matching(Without(live, r), g, k) == [] {
      MatchingWithout(live, r, g, k);
      WithoutNone(r);
    }
  }

  lemma WithoutNone(r: TblRec)
    ensures Without([], r) == []
  {
  }

  lemma PrependedOnce<T>(x: T, s: seq<T>)
    ensures NoTwice([x] + s) <==> NoTwice(s) && x !in s
  {
    if NoTwice(s) && x !in s {
      assert forall i :: 0 < i < |s| + 1 ==> ([x] + s)[i] == s[i - 1];
    }
    if NoTwice([x] + s) {
      forall i | 0 <= i < |s| ensures s[i] == ([x] + s)[i + 1] != ([x] + s)[0] {
      }
    }
  }

  lemma {:induction false} UnlistedIn(rs: seq<TblRec>, r: TblRec)
    requires NoTwice(rs)
    ensures NoTwice(Unlisted(rs, r)) && AllBut(Unlisted(rs, r), rs, r)
  {
    if rs != [] {
      assert rs == [rs[0]] + rs[1..];
      PrependedOnce(rs[0], rs[1..]);
      UnlistedIn(rs[1..], r);
      PrependedOnce(rs[0], Unlisted(rs[1..], r));
    }
  }

  lemma {:induction false} UnlistedIs(rs: seq<TblRec>, r: TblRec)
    requires NoTwice(rs)
    ensures Rev(Unlisted(rs, r)) == Without(Rev(rs), r)
  {
    if rs != [] {
      assert rs == [rs[0]] + rs[1..];
      PrependedOnce(rs[0], rs[1..]);
      UnlistedIs(rs[1..], r);
      LastOf(Rev(rs[1..]), rs[0]);
      if rs[0] == r {
        NotLive(rs[1..], r);
        WithoutIn(Rev(rs[1..]), r);
      }
    }
  }

  lemma {:induction false} RevOf(rs: seq<TblRec>)
    ensures |Rev(rs)| == |rs| && (forall i :: 0 <= i < |rs| ==> Rev(rs)[i] == rs[|rs| - 1 - i])
    ensures (forall r :: r in rs ==> r in Rev(rs)) && forall r :: r in Rev(rs) ==> r in rs
    ensures NoTwice(rs) ==> NoTwice(Rev(rs))
  {
    if rs != [] {
      RevOf(rs[1..]);
      assert rs == [rs[0]] + rs[1..];
      assert NoTwice(rs) ==> NoTwice(rs[1..]);
    }
  }

  lemma RowWhole(flds: seq<string>, data: seq<string>)
    requires NoTwice(flds) && |flds| <= |data|
    ensures forall f :: f in flds ==> f in Row(flds, data)
    ensures forall f :: f in flds ==> f in Firsts(flds, |flds|)
  {
    forall f | f in flds ensures f in Row(flds, data) {
      var i :| 0 <= i < |flds| && flds[i] == f;
      RowAt(flds, data, i);
    }
  }

  lemma {:induction false} NotLive(rs: seq<TblRec>, r: TblRec)
    requires r !in rs
    ensures r !in Rev(rs)
  {
    if rs != [] {
      NotLive(rs[1..], r);
    }
  }

  lemma FirstsNext(flds: seq<string>, n: nat)
    requires NoTwice(flds) && n < |flds|
    ensures flds[n] !in Firsts(flds, n) && Firsts(flds, n + 1) == Firsts(flds, n) + {flds[n]}
  {
  }

  lemma {:induction false} RowAt(flds: seq<string>, data: seq<string>, i: nat)
    requires NoTwice(flds) && i < |flds| <= |data|
    ensures flds[i] in Row(flds, data) && Row(flds, data)[flds[i]] == data[i]
  {
    var b := flds[..|flds| - 1];
    if i < |b| {
      assert b[i] == flds[i];
      RowAt(b, data, i);
    }
  }
}
