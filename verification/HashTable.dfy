/// The hash table: chained buckets that double in number, and the list in application order that
/// runs through all items.
module HashTable {
  import opened Arith
  import opened Bits
  import opened HashSort
  import MergeSort

  type Item = Handle<string>  // the item of a handle is its key

  datatype Bucket = Bucket(head: Handle?<string>, count: nat, expandMult: nat)

  const INITIAL_NUM_BUCKETS := 32
  const INITIAL_NUM_BUCKETS_LOG2 := 5
  const CAPACITY_THRESH := 10

  // Following the bucket's links from head passes through s, and back.
  ghost predicate Linked(head: Handle?<string>, s: seq<Item>)
    reads set h | h in s
  {
    && NoDup(s) && head == (if s == [] then null else s[0])
    && (forall i {:trigger s[i].hhNext} :: 0 <= i < |s| ==> s[i].hhNext == if i + 1 < |s| then s[i + 1] else null)
    && (forall i {:trigger s[i].hhPrev} :: 0 <= i < |s| ==> s[i].hhPrev == if i > 0 then s[i - 1] else null)
  }

  // What is left of a chain that is being moved: only the forward links still count.
  ghost predicate Rest(head: Handle?<string>, s: seq<Item>)
    reads set h | h in s
  {
    && NoDup(s) && head == (if s == [] then null else s[0])
    && (forall i {:trigger s[i].hhNext} :: 0 <= i < |s| ==> s[i].hhNext == if i + 1 < |s| then s[i + 1] else null)
  }

  // Puts an item at the head of a chain.
  method PushLink(head: Handle?<string>, h: Item, ghost s: seq<Item>)
    requires Linked(head, s) && h !in s
    modifies h`hhNext, h`hhPrev, (if head == null then {} else {head})`hhPrev
    ensures Linked(h, [h] + s)
  {
    h.hhNext := head;
    h.hhPrev := null;
    if head != null {
      head.hhPrev := h;
    }
    ghost var t := [h] + s;
    forall i | 0 <= i < |t| ensures t[i].hhNext == (if i + 1 < |t| then t[i + 1] else null) {
      assert i > 0 ==> t[i] == s[i - 1];
    }
    forall i | 0 <= i < |t| ensures t[i].hhPrev == (if i > 0 then t[i - 1] else null) {
      assert i > 0 ==> t[i] == s[i - 1];
    }
  }

  lemma WithoutAt<X>(s: seq<X>, i: nat)
    requires NoDup(s) && i < |s|
    ensures NoDup(s[..i] + s[i + 1..]) && s[i] !in s[..i] + s[i + 1..]
    ensures forall x :: x in s[..i] + s[i + 1..] ==> x in s
  {
  }

  // Takes an item out of a chain (HASH_DEL_IN_BKT).
  method Unlink(head: Handle?<string>, h: Item, ghost s: seq<Item>, ghost k: nat) returns (newHead: Handle?<string>)
    requires Linked(head, s) && k < |s| && s[k] == h
    modifies (set x | x in s)`hhNext, (set x | x in s)`hhPrev
    ensures Linked(newHead, s[..k] + s[k + 1..])
  {
    newHead := head;
    if head == h {
      newHead := h.hhNext;
    }
    assert h.hhPrev == (if k > 0 then s[k - 1] else null) && h.hhNext == (if k + 1 < |s| then s[k + 1] else null);
    if h.hhPrev != null {
      h.hhPrev.hhNext := h.hhNext;
    }
    if h.hhNext != null {
      h.hhNext.hhPrev := h.hhPrev;
    }
    ghost var t := s[..k] + s[k + 1..];
    WithoutAt(s, k);
    forall i | 0 <= i < |t| ensures t[i].hhNext == (if i + 1 < |t| then t[i + 1] else null) {
      assert t[i] == s[if i < k then i else i + 1];
    }
    forall i | 0 <= i < |t| ensures t[i].hhPrev == (if i > 0 then t[i - 1] else null) {
      assert t[i] == s[if i < k then i else i + 1];
    }
  }

  // The list in application order.
  ghost predicate Ordered(head: Handle?<string>, s: seq<Item>)
    reads set h | h in s
  {
    && NoDup(s) && head == (if s == [] then null else s[0])
    && (forall i {:trigger s[i].next} :: 0 <= i < |s| ==> s[i].next == if i + 1 < |s| then s[i + 1] else null)
    && (forall i {:trigger s[i].prev} :: 0 <= i < |s| ==> s[i].prev == if i > 0 then s[i - 1] else null)
  }

  lemma {:induction false} ChainByIndex(x: Handle?<string>, s: seq<Item>, end: Handle?<string>)
    ensures ChainTo(x, s, end) <==>
      x == (if s == [] then end else s[0])
      && forall i {:trigger s[i].next} :: 0 <= i < |s| ==> s[i].next == if i + 1 < |s| then s[i + 1] else end
    decreases s
  {
    if s != [] {
      var t := s[1..];
      ChainByIndex(s[0].next, t, end);
      assert forall i {:trigger t[i].next} :: 0 <= i < |t| ==> t[i] == s[i + 1];
      assert forall i {:trigger s[i].next} :: 0 < i < |s| ==> s[i] == t[i - 1];
    }
  }

  // The order of the table is the list that the sort works on.
  lemma OrderedIsList(head: Handle?<string>, s: seq<Item>)
    ensures Ordered(head, s) <==> IsList(head, s)
  {
    ChainByIndex(head, s, null);
    assert PrevsOf(s) <==> forall i {:trigger s[i].prev} :: 0 <= i < |s| ==>
      s[i].prev == if i > 0 then s[i - 1] else null;
  }

  method AppendOrder(tail: Item, h: Item, ghost s: seq<Item>)
    requires s != [] && Ordered(s[0], s) && tail == s[|s| - 1] && h !in s
    modifies h`next, h`prev, tail`next
    ensures Ordered(s[0], s + [h])
  {
    h.next := null;
    tail.next := h;
    h.prev := tail;
  }

  // The relinking of HASH_DELETE.
  method RemoveOrder(head: Item, tail: Item, h: Item, ghost s: seq<Item>, ghost k: nat)
    returns (newHead: Handle?<string>, newTail: Handle?<string>)
    requires k < |s| && |s| > 1 && Ordered(head, s) && tail == s[|s| - 1] && s[k] == h
    modifies (set x | x in s)`next, (set x | x in s)`prev
    ensures var t := s[..k] + s[k + 1..]; Ordered(newHead, t) && newTail == t[|t| - 1]
  {
    newHead, newTail := head, tail;
    if h == tail {
      newTail := h.prev;
    }
    assert h.prev == (if k > 0 then s[k - 1] else null) && h.next == (if k + 1 < |s| then s[k + 1] else null);
    if h.prev != null {
      h.prev.next := h.next;
    } else {
      newHead := h.next;
    }
    if h.next != null {
      h.next.prev := h.prev;
    }
    ghost var t := s[..k] + s[k + 1..];
    WithoutAt(s, k);
    forall i | 0 <= i < |t| ensures t[i].next == (if i + 1 < |t| then t[i + 1] else null) {
      assert t[i] == s[if i < k then i else i + 1];
    }
    forall i | 0 <= i < |t| ensures t[i].prev == (if i > 0 then t[i - 1] else null) {
      assert t[i] == s[if i < k then i else i + 1];
    }
  }

  // Bucket b counts and links its chain, and every item is in the bucket of its hash value.
  ghost predicate Slot(buckets: array<Bucket>, chains: seq<seq<Item>>, members: set<Item>, b: nat)
    requires b < buckets.Length == |chains|
    reads buckets, members
  {
    && buckets[b].count == |chains[b]|
    && (forall h :: h in chains[b] ==> h in members && h.hashv % |chains| == b)
    && Linked(buckets[b].head, chains[b])
  }

  ghost predicate Spread(buckets: array<Bucket>, chains: seq<seq<Item>>, members: set<Item>)
    reads buckets, members
  {
    buckets.Length == |chains| > 0 && forall b :: 0 <= b < |chains| ==> Slot(buckets, chains, members, b)
  }

  // The chains hold these items and no others.
  ghost predicate Holding(chains: seq<seq<Item>>, items: set<Item>) {
    && chains != []
    && (forall b :: 0 <= b < |chains| ==> forall h :: h in chains[b] ==> h in items)
    && (forall h :: h in items ==> h in chains[h.hashv % |chains|])
  }

  function Over(length: nat, ideal: nat): nat {
    if length > ideal then length - ideal else 0
  }

  // The number of items beyond the ideal length of their chain.
  ghost function Excess(chains: seq<seq<Item>>, ideal: nat): nat {
    if chains == [] then 0 else Excess(chains[..|chains| - 1], ideal) + Over(|chains[|chains| - 1]|, ideal)
  }

  lemma {:induction false} ExcessPush(chains: seq<seq<Item>>, b: nat, chain: seq<Item>, ideal: nat)
    requires b < |chains| && |chain| == |chains[b]| + 1
    ensures Excess(chains[b := chain], ideal) == Excess(chains, ideal) + if |chain| > ideal then 1 else 0
  {
    var n := |chains| - 1;
    if b < n {
      assert chains[b := chain][..n] == chains[..n][b := chain];
      ExcessPush(chains[..n], b, chain, ideal);
    } else {
      assert chains[b := chain][..n] == chains[..n];
    }
  }

  // The delay that HASH_EXPAND_BUCKETS grants to a chain beyond the ideal length.
  function Multiplier(count: nat, ideal: nat): nat {
    if count > ideal > 0 then count / ideal else 0
  }

  // A change of one chain, made of members, leaves the other buckets alone.
  twostate lemma OtherSlots(new b: nat, new chains': seq<seq<Item>>, x: (array<Bucket>, seq<seq<Item>>, set<Item>))
    requires old(Spread(x.0, x.1, x.2)) && b < |x.1| == |chains'| && Slot(x.0, chains', x.2, b)
    requires forall c :: 0 <= c < |x.1| && c != b ==> chains'[c] == x.1[c] && x.0[c] == old(x.0[c])
    requires forall h :: h in x.2 && h.hashv % |x.1| != b ==> h.hhNext == old(h.hhNext) && h.hhPrev == old(h.hhPrev)
    ensures Spread(x.0, chains', x.2)
  {
    forall c | 0 <= c < |x.1| && c != b ensures Slot(x.0, chains', x.2, c) {
      assert old(Slot(x.0, x.1, x.2, c));
    }
  }

  // The head of a bucket, and its links, for one item more.
  method PushBucket(buckets: array<Bucket>, b: nat, h: Item, mult: nat, ghost chains: seq<seq<Item>>,
                    ghost members: set<Item>)
    returns (ghost pushed: seq<seq<Item>>)
    requires Spread(buckets, chains, members) && b < buckets.Length && h.hashv % |chains| == b
    requires h in members && h !in chains[b]
    modifies buckets, h`hhNext, h`hhPrev, (if buckets[b].head == null then {} else {buckets[b].head})`hhPrev
    ensures pushed == chains[b := [h] + chains[b]] && Spread(buckets, pushed, members)
    ensures buckets[b].expandMult == mult
    ensures forall c :: 0 <= c < buckets.Length && c != b ==> buckets[c] == old(buckets[c])
  {
    hide Linked;
    var bucket := buckets[b];
    assert Slot(buckets, chains, members, b);
    HeadInChain(bucket.head, chains[b]);
    PushLink(bucket.head, h, chains[b]);
    buckets[b] := Bucket(h, bucket.count + 1, mult);
    pushed := chains[b := [h] + chains[b]];
    OtherSlots(b, pushed, (buckets, chains, members));
  }

  lemma HeadInChain(head: Handle?<string>, s: seq<Item>)
    requires Linked(head, s)
    ensures head != null ==> head in s
  {
  }

  // One turn of the inner loop of HASH_EXPAND_BUCKETS.
  method MoveOne(buckets: array<Bucket>, h: Item, ideal: nat, nonideal: nat, ghost chains: seq<seq<Item>>,
                 ghost members: set<Item>, ghost moved: set<Item>, ghost log2: nat)
    returns (extra: nat, ghost pushed: seq<seq<Item>>)
    requires Spread(buckets, chains, members) && Holding(chains, moved) && h in members && h !in moved && ideal > 0
    requires nonideal == Excess(chains, ideal) && buckets.Length == Pow2(log2)
    requires forall b :: 0 <= b < |chains| ==> buckets[b].expandMult == Multiplier(|chains[b]|, ideal)
    modifies buckets, h`hhNext, h`hhPrev, moved`hhPrev
    ensures |pushed| == |chains| && Spread(buckets, pushed, members) && Holding(pushed, moved + {h})
    ensures extra == Excess(pushed, ideal)
    ensures forall b :: 0 <= b < |pushed| ==> buckets[b].expandMult == Multiplier(|pushed[b]|, ideal)
  {
    hide Linked, Slot, Spread, Holding, Excess, And, Pow2;
    AndMask(h.hashv, log2);
    var b := And(h.hashv, buckets.Length - 1);
    Counted(buckets, chains, members, b);
    HoldingOne(chains, moved, h);
    var count, mult := buckets[b].count + 1, buckets[b].expandMult;
    extra := nonideal;
    if count > ideal {
      extra := nonideal + 1;
      mult := count / ideal;
    }
    ExcessPush(chains, b, [h] + chains[b], ideal);
    pushed := PushBucket(buckets, b, h, mult, chains, members);
  }

  lemma Counted(buckets: array<Bucket>, chains: seq<seq<Item>>, members: set<Item>, b: nat)
    requires Spread(buckets, chains, members) && b < buckets.Length
    ensures buckets.Length == |chains| && buckets[b].count == |chains[b]|
    ensures buckets[b].head != null ==> buckets[b].head in chains[b]
  {
    assert Slot(buckets, chains, members, b);
  }

  ghost function Items(s: seq<Item>): set<Item> {
    set h | h in s
  }

  // The inner loop of HASH_EXPAND_BUCKETS: one old chain goes to the new buckets.
  method MoveChain(buckets: array<Bucket>, head: Handle?<string>, ideal: nat, nonideal: nat, ghost chain: seq<Item>,
                   ghost chains: seq<seq<Item>>, ghost members: set<Item>, ghost moved: set<Item>, ghost log2: nat)
    returns (extra: nat, ghost pushed: seq<seq<Item>>)
    requires Spread(buckets, chains, members) && Holding(chains, moved) && ideal > 0
    requires Rest(head, chain) && Items(chain) <= members && Items(chain) !! moved
    requires nonideal == Excess(chains, ideal) && buckets.Length == Pow2(log2)
    requires forall b :: 0 <= b < |chains| ==> buckets[b].expandMult == Multiplier(|chains[b]|, ideal)
    modifies buckets, Items(chain)`hhNext, Items(chain)`hhPrev, moved`hhPrev
    ensures |pushed| == |chains| && Spread(buckets, pushed, members) && Holding(pushed, moved + Items(chain))
    ensures extra == Excess(pushed, ideal)
    ensures forall b :: 0 <= b < |pushed| ==> buckets[b].expandMult == Multiplier(|pushed[b]|, ideal)
  {
    hide Spread, Linked, Holding, Excess, Multiplier, Pow2;
    SameSize(buckets, chains, members);
    var thh := head;
    ghost var j := 0;
    extra, pushed := nonideal, chains;
    assert moved + Items(chain[..0]) == moved;
    while thh != null
      invariant j <= |chain| && Rest(thh, chain[j..])
      invariant |pushed| == |chains| && Spread(buckets, pushed, members) && Holding(pushed, moved + Items(chain[..j]))
      invariant extra == Excess(pushed, ideal)
      invariant forall b :: 0 <= b < |pushed| ==> buckets[b].expandMult == Multiplier(|pushed[b]|, ideal)
      decreases |chain| - j
    {
      NextOf(thh, chain, j, moved);
      var next := thh.hhNext;
      extra, pushed := MoveOne(buckets, thh, ideal, extra, pushed, members, moved + Items(chain[..j]), log2);
      thh := next;
      j := j + 1;
    }
    assert chain[..j] == chain;
  }

  lemma NextOf(thh: Item, chain: seq<Item>, j: nat, moved: set<Item>)
    requires NoDup(chain) && j <= |chain| && Rest(thh, chain[j..]) && Items(chain) !! moved
    ensures j < |chain| && chain[j] == thh && thh !in moved + Items(chain[..j])
    ensures Rest(thh.hhNext, chain[j + 1..]) && thh !in chain[j + 1..]
    ensures moved + Items(chain[..j]) + {thh} == moved + Items(chain[..j + 1])
  {
    assert chain[j..][1..] == chain[j + 1..];
    var s, t := chain[j..], chain[j + 1..];
    assert forall i {:trigger t[i]} :: 0 <= i < |t| ==> t[i] == s[i + 1];
    assert chain[..j + 1] == chain[..j] + [thh];
  }

  lemma SameSize(buckets: array<Bucket>, chains: seq<seq<Item>>, members: set<Item>)
    requires Spread(buckets, chains, members)
    ensures buckets.Length == |chains|
  {
  }

  // New buckets are empty.
  lemma AllEmpty(buckets: array<Bucket>, chains: seq<seq<Item>>, members: set<Item>, ideal: nat)
    requires buckets.Length == |chains| > 0
    requires forall b :: 0 <= b < |chains| ==> chains[b] == [] && buckets[b] == Bucket(null, 0, 0)
    ensures Spread(buckets, chains, members) && Holding(chains, {}) && Excess(chains, ideal) == 0
    ensures forall b :: 0 <= b < |chains| ==> buckets[b].expandMult == Multiplier(|chains[b]|, ideal)
    decreases |chains|
  {
    NoExcess(chains, ideal);
  }

  lemma {:induction false} NoExcess(chains: seq<seq<Item>>, ideal: nat)
    requires forall b :: 0 <= b < |chains| ==> chains[b] == []
    ensures Excess(chains, ideal) == 0
  {
    if chains != [] {
      NoExcess(chains[..|chains| - 1], ideal);
    }
  }

  function Empties(n: nat): seq<seq<Item>> {
    seq(n, i => [])
  }

  // The items whose old bucket is one of the first i.
  ghost function Before(members: set<Item>, n: nat, i: nat): set<Item>
    requires n > 0
  {
    set h | h in members && h.hashv % n < i
  }

  lemma BeforeEnds(members: set<Item>, n: nat)
    requires n > 0
    ensures Before(members, n, 0) == {} && Before(members, n, n) == members
  {
  }

  // What the loop of HASH_EXPAND_BUCKETS has not come to yet.
  ghost predicate Waiting(buckets: array<Bucket>, chains: seq<seq<Item>>, members: set<Item>, i: nat)
    reads buckets, members
  {
    && i <= |chains| == buckets.Length
    && forall b :: i <= b < |chains| ==>
         && Items(chains[b]) <= members && Rest(buckets[b].head, chains[b])
         && forall h :: h in chains[b] ==> h.hashv % |chains| == b
  }

  lemma AllWaiting(buckets: array<Bucket>, chains: seq<seq<Item>>, members: set<Item>)
    requires Spread(buckets, chains, members)
    ensures Waiting(buckets, chains, members, 0)
  {
    forall b | 0 <= b < |chains| ensures Items(chains[b]) <= members && Rest(buckets[b].head, chains[b]) {
      assert Slot(buckets, chains, members, b);
    }
    forall b, h | 0 <= b < |chains| && h in chains[b] ensures h.hashv % |chains| == b {
      assert Slot(buckets, chains, members, b);
    }
  }

  lemma NextWaiting(buckets: array<Bucket>, chains: seq<seq<Item>>, members: set<Item>, i: nat)
    requires Waiting(buckets, chains, members, i) && Holding(chains, members) && i < |chains|
    ensures Items(chains[i]) <= members && Items(chains[i]) !! Before(members, |chains|, i)
    ensures Before(members, |chains|, i) + Items(chains[i]) == Before(members, |chains|, i + 1)
    ensures Rest(buckets[i].head, chains[i])
  {
  }

  twostate lemma StillWaiting(new i: nat, x: (array<Bucket>, seq<seq<Item>>, set<Item>))
    requires old(Waiting(x.0, x.1, x.2, i)) && i < |x.1| && unchanged(x.0)
    requires forall h :: h in x.2 && h.hashv % |x.1| > i ==> h.hhNext == old(h.hhNext)
    ensures Waiting(x.0, x.1, x.2, i + 1)
  {
    forall b | i < b < |x.1| ensures Rest(x.0[b].head, x.1[b]) {
      assert old(Rest(x.0[b].head, x.1[b]));
      assert forall h :: h in x.1[b] ==> h in Items(x.1[b]);
    }
  }

  // The loops of HASH_EXPAND_BUCKETS: every item goes to the bucket that one more bit names.
  method Redistribute(buckets: array<Bucket>, ideal: nat, ghost chains: seq<seq<Item>>, ghost members: set<Item>,
                      ghost k: nat)
    returns (moved: array<Bucket>, nonideal: nat, ghost pushed: seq<seq<Item>>)
    requires Spread(buckets, chains, members) && Holding(chains, members) && Pow2(k) == 2 * buckets.Length && ideal > 0
    modifies members`hhNext, members`hhPrev
    ensures fresh(moved) && moved.Length == 2 * buckets.Length == |pushed|
    ensures Spread(moved, pushed, members) && Holding(pushed, members) && nonideal == Excess(pushed, ideal)
    ensures forall b :: 0 <= b < |pushed| ==> moved[b].expandMult == Multiplier(|pushed[b]|, ideal)
  {
    hide Spread, Holding, Linked, Rest, Excess, Multiplier, Waiting, Before;
    var n := buckets.Length;
    SameSize(buckets, chains, members);
    AllWaiting(buckets, chains, members);
    BeforeEnds(members, n);
    moved := new Bucket[2 * n](_ => Bucket(null, 0, 0));
    nonideal, pushed := 0, Empties(2 * n);
    AllEmpty(moved, pushed, members, ideal);
    for i := 0 to n
      invariant |pushed| == 2 * n == moved.Length && Spread(moved, pushed, members)
      invariant Holding(pushed, Before(members, n, i))
      invariant nonideal == Excess(pushed, ideal) && Waiting(buckets, chains, members, i)
      invariant forall b :: 0 <= b < |pushed| ==> moved[b].expandMult == Multiplier(|pushed[b]|, ideal)
    {
      nonideal, pushed := MoveNext(buckets, moved, i, ideal, nonideal, chains, pushed, members, k);
    }
  }

  method MoveNext(buckets: array<Bucket>, moved: array<Bucket>, i: nat, ideal: nat, nonideal: nat,
                  ghost chains: seq<seq<Item>>, ghost before: seq<seq<Item>>, ghost members: set<Item>, ghost k: nat)
    returns (extra: nat, ghost pushed: seq<seq<Item>>)
    requires i < |chains| == buckets.Length && buckets != moved && moved.Length == |before| == Pow2(k) && ideal > 0
    requires Waiting(buckets, chains, members, i) && Holding(chains, members)
    requires Spread(moved, before, members) && Holding(before, Before(members, |chains|, i))
    requires nonideal == Excess(before, ideal)
    requires forall b :: 0 <= b < |before| ==> moved[b].expandMult == Multiplier(|before[b]|, ideal)
    modifies moved, members`hhNext, members`hhPrev
    ensures |pushed| == |before| && Spread(moved, pushed, members)
    ensures Holding(pushed, Before(members, |chains|, i + 1)) && extra == Excess(pushed, ideal)
    ensures Waiting(buckets, chains, members, i + 1)
    ensures forall b :: 0 <= b < |pushed| ==> moved[b].expandMult == Multiplier(|pushed[b]|, ideal)
  {
    hide Spread, Holding, Linked, Rest, Excess, Multiplier, Waiting, Before, Pow2;
    NextWaiting(buckets, chains, members, i);
    Mine(buckets, chains, members, i);
    extra, pushed := MoveChain(moved, buckets[i].head, ideal, nonideal, chains[i], before, members,
                               Before(members, |chains|, i), k);
    StillWaiting(i, (buckets, chains, members));
  }

  lemma Mine(buckets: array<Bucket>, chains: seq<seq<Item>>, members: set<Item>, i: nat)
    requires Waiting(buckets, chains, members, i) && i < |chains|
    ensures forall h :: h in Items(chains[i]) ==> h.hashv % |chains| == i
    ensures Before(members, |chains|, i) <= members
    ensures forall h :: h in Before(members, |chains|, i) ==> h.hashv % |chains| < i
  {
  }

  // No two items have the same key.
  ghost predicate Keyed(hash: string -> nat, order: seq<Item>) {
    && (forall h :: h in order ==> h.hashv == hash(h.item))
    && forall i, j :: 0 <= i < j < |order| ==> order[i].item != order[j].item
  }

  // A table. It exists from the first item until the last one is deleted.
  class Hash {
    const hash: string -> nat
    var head: Handle?<string>
    var tail: Handle?<string>
    var buckets: array<Bucket>
    var numBuckets: nat
    var log2NumBuckets: nat
    var numItems: nat
    var idealChainMaxlen: nat
    var nonidealItems: nat
    var ineffExpands: nat
    var noexpand: bool
    ghost var order: seq<Item>        // the items in application order
    ghost var chains: seq<seq<Item>>
    ghost var members: set<Item>

    // The number of buckets is the power of two that its logarithm says, and each item is in the
    // bucket that the low bits of its hash value name.
    ghost predicate Bucketed()
      reads `buckets, `numBuckets, `log2NumBuckets, `chains, `members, buckets, members
    {
      && numBuckets == Pow2(log2NumBuckets) == buckets.Length && Spread(buckets, chains, members)
      && Holding(chains, members)
    }

    ghost predicate Listed()
      reads `head, `tail, `order, `members, `numItems, members
    {
      && members == Items(order) && numItems == |order| && Ordered(head, order)
      && tail == if order == [] then null else order[|order| - 1]
    }

    ghost predicate Valid()
      reads this, buckets, members
    {
      Listed() && Keyed(hash, order) && (head != null ==> Bucketed())
    }

    constructor (hash: string -> nat)
      ensures Valid() && order == [] && this.hash == hash && !noexpand && ineffExpands == 0
    {
      this.hash := hash;
      head, tail, buckets := null, null, new Bucket[0];
      numBuckets, log2NumBuckets, numItems, idealChainMaxlen, nonidealItems, ineffExpands, noexpand :=
        0, 0, 0, 0, 0, 0, false;
      order, chains, members := [], [], {};
    }

    // HASH_EXPAND_BUCKETS
    method ExpandBuckets()
      requires Bucketed() && numItems > 0
      modifies `buckets, `numBuckets, `log2NumBuckets, `chains, `idealChainMaxlen, `nonidealItems, `ineffExpands,
        `noexpand
      modifies members`hhNext, members`hhPrev
      ensures Bucketed() && fresh(buckets) && numBuckets == 2 * old(numBuckets)
      ensures idealChainMaxlen == Ceil(numItems, numBuckets)
      ensures nonidealItems == Excess(chains, idealChainMaxlen)
      ensures forall b :: 0 <= b < |chains| ==> buckets[b].expandMult == Multiplier(|chains[b]|, idealChainMaxlen)
      ensures ineffExpands == if nonidealItems > numItems / 2 then old(ineffExpands) + 1 else 0
      ensures noexpand == (old(noexpand) || ineffExpands > 1)
    {
      hide Spread, Holding, Linked, Excess, Multiplier, And, Shr, Ceil, IdealMaxlen;
      IdealIsCeil(numItems, numBuckets, log2NumBuckets);
      HalfByShift(numItems);
      idealChainMaxlen := IdealMaxlen(numItems, numBuckets, log2NumBuckets);
      ghost var pushed;
      buckets, nonidealItems, pushed := Redistribute(buckets, idealChainMaxlen, chains, members, log2NumBuckets + 1);
      chains := pushed;
      numBuckets := numBuckets * 2;
      log2NumBuckets := log2NumBuckets + 1;
      ineffExpands := if nonidealItems > Shr(numItems, 1) then ineffExpands + 1 else 0;
      if ineffExpands > 1 {
        noexpand := true;
      }
    }

    // The finite map from keys to items that the table stands for.
    ghost function Contents(): map<string, Item>
      reads `order
    {
      ContentsOf(order)
    }

    // HASH_MAKE_TABLE
    method MakeTable()
      modifies `buckets, `numBuckets, `log2NumBuckets, `numItems, `idealChainMaxlen, `nonidealItems, `ineffExpands,
        `noexpand,
        `chains, `members
      ensures fresh(buckets) && members == {} && numItems == 0 && Bucketed()
      ensures numBuckets == 32 && ineffExpands == 0 && !noexpand && idealChainMaxlen == 0 && nonidealItems == 0
    {
      numBuckets, log2NumBuckets := INITIAL_NUM_BUCKETS, INITIAL_NUM_BUCKETS_LOG2;
      numItems, idealChainMaxlen, nonidealItems, ineffExpands, noexpand := 0, 0, 0, 0, false;
      buckets := new Bucket[INITIAL_NUM_BUCKETS](_ => Bucket(null, 0, 0));
      chains, members := Empties(INITIAL_NUM_BUCKETS), {};
      assert Pow2(5) == 32 by {
        assert Pow2(3) == 2 * Pow2(2) && Pow2(2) == 2 * Pow2(1) && Pow2(1) == 2 * Pow2(0);
      }
      AllEmpty(buckets, chains, members, 0);
    }

    // One item more with this hash value makes its bucket reach its capacity.
    ghost predicate Full(hashv: nat)
      requires Bucketed()
      reads `buckets, `numBuckets, `log2NumBuckets, `chains, `members, buckets, members
    {
      var b := hashv % |chains|;
      |chains[b]| + 1 >= (buckets[b].expandMult + 1) * 10
    }

    // HASH_ADD_TO_BKT, which may double the buckets.
    method AddToBucket(h: Item)
      requires Bucketed() && h !in members && numItems > 0
      modifies `buckets, `numBuckets, `log2NumBuckets, `chains, `members, `idealChainMaxlen, `nonidealItems,
        `ineffExpands, `noexpand
      modifies buckets, h`hhNext, h`hhPrev, members`hhNext, members`hhPrev
      ensures Bucketed() && members == old(members) + {h} && (buckets == old(buckets) || fresh(buckets))
      ensures numBuckets == if old(!noexpand && Full(h.hashv)) then 2 * old(numBuckets) else old(numBuckets)
    {
      hide Spread, Holding, Linked, And, Pow2;
      AndMask(h.hashv, log2NumBuckets);
      var b := And(h.hashv, numBuckets - 1);
      Counted(buckets, chains, members, b);
      MoreMembers(buckets, chains, members, h);
      HoldingOne(chains, members, h);
      var mult := buckets[b].expandMult;
      ghost var pushed := PushBucket(buckets, b, h, mult, chains, members + {h});
      chains, members := pushed, members + {h};
      Counted(buckets, chains, members, b);
      if buckets[b].count >= (mult + 1) * CAPACITY_THRESH && !noexpand {
        ExpandBuckets();
      }
    }

    // HASH_ADD_KEYPTR, for a key that is not in the table.
    method Add(h: Item)
      requires Valid() && h.hashv == hash(h.item) && h.item !in Contents()
      modifies this, buckets, h, members
      ensures Valid() && order == old(order) + [h] && Contents() == old(Contents())[h.item := h]
      ensures buckets == old(buckets) || fresh(buckets)
      ensures head == if old(head) == null then h else old(head)
    {
      hide Spread, Holding, Bucketed, Keyed, Ordered, ContentsOf, Items, Pow2;
      ContentsAdded(order, h);
      KeyedMore(hash, order, h);
      AppendItem(h);
      ItemsMore(old(order), h);
      label Appended:
      AddToBucket(h);
      SameOrder@Appended((head, order));
    }

    // The first half of HASH_ADD_KEYPTR: the item goes to the end of the list.
    method AppendItem(h: Item)
      requires Listed() && h !in order && (head != null ==> Bucketed())
      modifies this, h, members
      ensures order == old(order) + [h] && Ordered(head, order) && tail == h && numItems == |order|
      ensures head == if old(head) == null then h else old(head)
      ensures Bucketed() && members == Items(old(order)) && (buckets == old(buckets) || fresh(buckets))
    {
      hide Spread, Holding, Pow2;
      if head == null {
        h.next := null;
        head := h;
        h.prev := null;
        tail := h;
        MakeTable();
      } else {
        AppendOrder(tail, h, order);
        SpreadKept((buckets, chains, members));
        tail := h;
      }
      numItems := numItems + 1;
      order := order + [h];
    }

    // HASH_FIND
    method Find(key: string) returns (out: Handle?<string>)
      requires Valid()
      ensures key in Contents() ==> out == Contents()[key]
      ensures key !in Contents() ==> out == null
    {
      hide Spread, Holding, Linked, Ordered, ContentsOf, Pow2;
      OrderEnds(head, order);
      out := null;
      if head != null {
        var hashv := hash(key);
        AndMask(hashv, log2NumBuckets);
        var b := And(hashv, numBuckets - 1);
        ChainOf(buckets, chains, members, b);
        out := FindInBucket(buckets[b].head, key, chains[b]);
      }
      FoundIs(hash, order, key);
    }

    // HASH_DEL_IN_BKT, in the bucket of the item.
    method RemoveFromBucket(h: Item)
      requires Bucketed() && h in members
      modifies buckets, `chains, `members, members`hhNext, members`hhPrev
      ensures Bucketed() && members == old(members) - {h}
    {
      hide Spread, Holding, Linked, Pow2;
      AndMask(h.hashv, log2NumBuckets);
      var b := And(h.hashv, numBuckets - 1);
      SameSize(buckets, chains, members);
      InChain(chains, members, h);
      ghost var k :| 0 <= k < |chains[b]| && chains[b][k] == h;
      ghost var rest := chains[b][..k] + chains[b][k + 1..];
      var bucket := buckets[b];
      HoldingLess(buckets, chains, members, b, k);
      var first := Unlink(bucket.head, h, chains[b], k);
      buckets[b] := bucket.(count := bucket.count - 1, head := first);
      OtherSlots(b, chains[b := rest], (buckets, chains, members));
      assert members - {h} + {h} == members;
      chains, members := chains[b := rest], members - {h};
      FewerMembers(buckets, chains, members, h);
    }

    // HASH_DELETE, for an item of the table.
    method Delete(h: Item) returns (ghost k: nat)
      requires Valid() && h in order
      modifies this, buckets, members
      ensures k < |old(order)| && old(order)[k] == h && order == old(order)[..k] + old(order)[k + 1..]
      ensures Valid() && Contents() == old(Contents()) - {h.item}
      ensures order == [] <==> head == null
    {
      hide Spread, Holding, Linked, Keyed, ContentsOf, Bucketed;
      k :| k < |order| && order[k] == h;
      ContentsDropped(hash, order, k);
      ghost var rest := order[..k] + order[k + 1..];
      AloneInOrder(head, order, k);
      if h.prev == null && h.next == null {
        head, tail, numItems := null, null, 0;
        order, chains, members := [], [], {};
      } else {
        DeleteItem(h, k);
      }
    }

    // The other items stay.
    method DeleteItem(h: Item, ghost k: nat)
      requires Listed() && Bucketed() && head != null && k < |order| && order[k] == h && |order| > 1
      modifies this, buckets, members
      ensures order == old(order[..k] + order[k + 1..]) && Listed() && Bucketed()
    {
      hide Spread, Holding, Linked, Ordered, Bucketed, NoDup, Items;
      OrderEnds(head, order);
      ItemsLess(order, k);
      Unorder(h, k);
      label Unordered:
      RemoveFromBucket(h);
      SameOrder@Unordered((head, order));
      numItems := numItems - 1;
    }

    // The first half of HASH_DELETE: the item leaves the list.
    method Unorder(h: Item, ghost k: nat)
      requires Bucketed() && k < |order| && order[k] == h && |order| > 1 && Items(order) == members
      requires Ordered(head, order) && head != null && tail == order[|order| - 1]
      modifies `head, `tail, `order, members`next, members`prev
      ensures order == old(order[..k] + order[k + 1..]) && Ordered(head, order) && tail == order[|order| - 1]
      ensures Bucketed()
    {
      hide Spread, Holding, Linked, Ordered, Pow2;
      head, tail := RemoveOrder(head, tail, h, order, k);
      order := order[..k] + order[k + 1..];
      SpreadKept((buckets, chains, members));
    }

    // HASH_SRT on the table: only the order changes.
    method SortItems(cmp: (Item, Item) -> int)
      requires Valid()
      modifies `head, `tail, `order, members`next, members`prev
      ensures order == MergeSort.Sort(cmp, old(order), 1) && multiset(order) == multiset(old(order))
      ensures MergeSort.Preorder(cmp, multiset(old(order))) ==> MergeSort.StablySorted(cmp, old(order), order)
      ensures Valid() && Contents() == old(Contents()) && chains == old(chains)
    {
      hide Spread, Holding, Linked, Ordered, Keyed, ContentsOf, Items, MergeSort.Sort, IsList, MergeSort.Preorder,
        MergeSort.StablySorted;
      SortStable(cmp, order);
      if head != null {
        OrderedIsList(head, order);
        OrderEnds(head, order);
        MergeSort.SortPermutes(cmp, order, 1);
        ghost var sorted;
        ItemsAre(order);
        head, tail, sorted := HashSrt(head, order, cmp);
        OrderedIsList(head, sorted);
        OrderEnds(head, sorted);
        SpreadKept((buckets, chains, members));
        SameItems(hash, order, sorted);
        order := sorted;
      } else {
        OrderEnds(head, order);
        SortNothing(cmp, order);
      }
    }
  }

  // HASH_FIND_IN_BKT
  method FindInBucket(head: Handle?<string>, key: string, ghost s: seq<Item>) returns (out: Handle?<string>)
    requires Linked(head, s)
    ensures out != null ==> out in s && out.item == key
    ensures out == null ==> forall h :: h in s ==> h.item != key
  {
    out := head;
    ghost var i := 0;
    while out != null
      invariant i <= |s| && out == (if i < |s| then s[i] else null)
      invariant forall j :: 0 <= j < i ==> s[j].item != key
      decreases |s| - i
    {
      if |out.item| == |key| && out.item == key {
        break;
      }
      out := out.hhNext;
      i := i + 1;
    }
  }

  // A bucket depends on no other link of its items than those of the chain.
  twostate lemma SpreadKept(x: (array<Bucket>, seq<seq<Item>>, set<Item>))
    requires old(Spread(x.0, x.1, x.2)) && x.0[..] == old(x.0[..])
    requires forall h :: h in x.2 ==> h.hhNext == old(h.hhNext) && h.hhPrev == old(h.hhPrev)
    ensures Spread(x.0, x.1, x.2)
  {
    forall b | 0 <= b < |x.1| ensures Slot(x.0, x.1, x.2, b) {
      assert old(Slot(x.0, x.1, x.2, b));
      assert x.0[..][b] == x.0[b] && old(x.0[..])[b] == old(x.0[b]);
    }
  }

  lemma ItemsMore(order: seq<Item>, h: Item)
    ensures Items(order + [h]) == Items(order) + {h}
    ensures h !in order ==> h !in Items(order)
  {
  }

  twostate lemma SameOrder(x: (Handle?<string>, seq<Item>))
    requires old(Ordered(x.0, x.1)) && forall h :: h in x.1 ==> h.next == old(h.next) && h.prev == old(h.prev)
    ensures Ordered(x.0, x.1)
  {
  }

  ghost function ContentsOf(order: seq<Item>): map<string, Item> {
    if order == [] then map[] else ContentsOf(order[..|order| - 1])[order[|order| - 1].item := order[|order| - 1]]
  }

  lemma ContentsAdded(order: seq<Item>, h: Item)
    ensures ContentsOf(order + [h]) == ContentsOf(order)[h.item := h]
  {
    assert (order + [h])[..|order|] == order;
  }

  // The keys of the map are those of the items, and each leads to its item.
  lemma {:induction false} ContentsIn(order: seq<Item>, h: Item)
    requires forall i, j :: 0 <= i < j < |order| ==> order[i].item != order[j].item
    requires h in order
    ensures h.item in ContentsOf(order) && ContentsOf(order)[h.item] == h
  {
    var b, l := order[..|order| - 1], order[|order| - 1];
    assert order == b + [l];
    if h in b {
      var i :| 0 <= i < |b| && b[i] == h;
      assert order[i] == h;
      ContentsIn(b, h);
    }
  }

  lemma {:induction false} ContentsOnly(order: seq<Item>, k: string)
    requires k in ContentsOf(order)
    ensures ContentsOf(order)[k] in order && ContentsOf(order)[k].item == k
  {
    var b, l := order[..|order| - 1], order[|order| - 1];
    assert order == b + [l];
    if k != l.item {
      ContentsOnly(b, k);
    }
  }

  lemma KeyedMore(hash: string -> nat, order: seq<Item>, h: Item)
    requires Keyed(hash, order) && h.hashv == hash(h.item) && h.item !in ContentsOf(order)
    ensures Keyed(hash, order + [h]) && h !in order
  {
    forall x | x in order ensures x.item != h.item {
      ContentsIn(order, x);
    }
  }

  lemma MoreMembers(buckets: array<Bucket>, chains: seq<seq<Item>>, members: set<Item>, h: Item)
    requires Spread(buckets, chains, members)
    ensures Spread(buckets, chains, members + {h})
  {
    forall b | 0 <= b < |chains| ensures Slot(buckets, chains, members + {h}, b) {
      assert Slot(buckets, chains, members, b);
    }
  }

  lemma HoldingOne(chains: seq<seq<Item>>, members: set<Item>, h: Item)
    requires Holding(chains, members)
    ensures var b := h.hashv % |chains|; Holding(chains[b := [h] + chains[b]], members + {h})
    ensures h !in members ==> h !in chains[h.hashv % |chains|]
    ensures forall x :: x in chains[h.hashv % |chains|] ==> x in members
  {
  }

  // The items of the bucket are those of the table with its hash value.
  lemma ChainOf(buckets: array<Bucket>, chains: seq<seq<Item>>, members: set<Item>, b: nat)
    requires Spread(buckets, chains, members) && Holding(chains, members) && b < buckets.Length
    ensures |chains| == buckets.Length && Linked(buckets[b].head, chains[b])
    ensures forall h :: h in chains[b] <==> h in members && h.hashv % |chains| == b
  {
    assert Slot(buckets, chains, members, b);
  }

  lemma FoundIs(hash: string -> nat, order: seq<Item>, key: string)
    requires Keyed(hash, order)
    ensures forall h :: h in order && h.item == key ==> key in ContentsOf(order) && ContentsOf(order)[key] == h
    ensures key in ContentsOf(order) ==>
      var h := ContentsOf(order)[key];
      h in order && h.item == key && h.hashv == hash(key)
  {
    forall h | h in order && h.item == key ensures key in ContentsOf(order) && ContentsOf(order)[key] == h {
      ContentsIn(order, h);
    }
    if key in ContentsOf(order) {
      ContentsOnly(order, key);
    }
  }

  lemma InChain(chains: seq<seq<Item>>, members: set<Item>, h: Item)
    requires Holding(chains, members) && h in members
    ensures chains != [] && h in chains[h.hashv % |chains|]
  {
  }

  // One item less in bucket b.
  lemma HoldingLess(buckets: array<Bucket>, chains: seq<seq<Item>>, members: set<Item>, b: nat, k: nat)
    requires Spread(buckets, chains, members) && Holding(chains, members) && b < |chains| && k < |chains[b]|
    ensures |chains| == buckets.Length && Linked(buckets[b].head, chains[b]) && buckets[b].count == |chains[b]|
    ensures var h, rest := chains[b][k], chains[b][..k] + chains[b][k + 1..];
      && h !in rest && Holding(chains[b := rest], members - {h})
      && forall x :: x in rest ==> x in members && x.hashv % |chains| == b
    ensures forall x :: x in chains[b] ==> x in members && x.hashv % |chains| == b
  {
    var chain := chains[b];
    assert Slot(buckets, chains, members, b);
    WithoutAt(chain, k);
    var h, rest := chain[k], chain[..k] + chain[k + 1..];
    forall x | x in members - {h} ensures x in chains[b := rest][x.hashv % |chains|] {
      if x.hashv % |chains| == b {
        var i :| 0 <= i < |chain| && chain[i] == x;
        assert rest[if i < k then i else i - 1] == x;
      }
    }
    var less := chains[b := rest];
    forall c | 0 <= c < |less| ensures forall x :: x in less[c] ==> x in members - {h} {
      assert Slot(buckets, chains, members, c);
    }
  }

  lemma FewerMembers(buckets: array<Bucket>, chains: seq<seq<Item>>, members: set<Item>, h: Item)
    requires h !in members && Spread(buckets, chains, members + {h}) && Holding(chains, members)
    ensures Spread(buckets, chains, members)
  {
    forall b | 0 <= b < |chains| ensures Slot(buckets, chains, members, b) {
      assert Slot(buckets, chains, members + {h}, b);
    }
  }

  // Both links of an item are null only if it is the only one.
  lemma AloneInOrder(head: Handle?<string>, order: seq<Item>, k: nat)
    requires Ordered(head, order) && k < |order|
    ensures order[k].prev == null && order[k].next == null <==> |order| == 1
    ensures head != null
  {
  }

  lemma OrderEnds(head: Handle?<string>, order: seq<Item>)
    requires Ordered(head, order)
    ensures NoDup(order) && (order == [] <==> head == null)
  {
  }

  lemma ItemsAre(order: seq<Item>)
    ensures Items(order) == set h | h in order
  {
  }

  lemma ItemsLess(order: seq<Item>, k: nat)
    requires NoDup(order) && k < |order|
    ensures order[k] in Items(order) && Items(order[..k] + order[k + 1..]) == Items(order) - {order[k]}
  {
    WithoutAt(order, k);
    var rest := order[..k] + order[k + 1..];
    forall x | x in order && x != order[k] ensures x in rest {
      var i :| 0 <= i < |order| && order[i] == x;
      assert rest[if i < k then i else i - 1] == x;
    }
  }

  // A map that leads every key to its item is the contents.
  lemma ContentsAre(hash: string -> nat, order: seq<Item>, m: map<string, Item>)
    requires Keyed(hash, order)
    requires forall h :: h in order ==> h.item in m && m[h.item] == h
    requires forall key :: key in m ==> m[key] in order && m[key].item == key
    ensures ContentsOf(order) == m
  {
    forall key | key in m ensures key in ContentsOf(order) && ContentsOf(order)[key] == m[key] {
      ContentsIn(order, m[key]);
    }
    forall key | key in ContentsOf(order) ensures key in m {
      ContentsOnly(order, key);
    }
  }

  lemma ContentsLead(hash: string -> nat, order: seq<Item>)
    requires Keyed(hash, order)
    ensures forall h :: h in order ==> h.item in ContentsOf(order) && ContentsOf(order)[h.item] == h
    ensures forall key ::
      key in ContentsOf(order) ==> ContentsOf(order)[key] in order && ContentsOf(order)[key].item == key
  {
    forall h | h in order ensures h.item in ContentsOf(order) && ContentsOf(order)[h.item] == h {
      ContentsIn(order, h);
    }
    forall key | key in ContentsOf(order)
      ensures ContentsOf(order)[key] in order && ContentsOf(order)[key].item == key
    {
      ContentsOnly(order, key);
    }
  }

  lemma KeyedLess(hash: string -> nat, order: seq<Item>, k: nat)
    requires Keyed(hash, order) && k < |order|
    ensures var rest := order[..k] + order[k + 1..];
      Keyed(hash, rest) && forall h :: h in rest <==> h in order && h.item != order[k].item
  {
    var rest := order[..k] + order[k + 1..];
    forall i | 0 <= i < |rest| ensures rest[i] == order[if i < k then i else i + 1] {
    }
    forall i, j | 0 <= i < j < |rest| ensures rest[i].item != rest[j].item {
      assert rest[i] == order[if i < k then i else i + 1] && rest[j] == order[if j < k then j else j + 1];
    }
    KeyedLeft(hash, order, k);
  }

  lemma KeyedLeft(hash: string -> nat, order: seq<Item>, k: nat)
    requires Keyed(hash, order) && k < |order|
    ensures forall h :: h in order[..k] + order[k + 1..] <==> h in order && h.item != order[k].item
  {
    var rest := order[..k] + order[k + 1..];
    forall h | h in order && h.item != order[k].item ensures h in rest {
      var i :| 0 <= i < |order| && order[i] == h;
      assert rest[if i < k then i else i - 1] == h;
    }
    forall h | h in rest ensures h in order && h.item != order[k].item {
      var i :| 0 <= i < |rest| && rest[i] == h;
      assert h == order[if i < k then i else i + 1];
    }
  }

  lemma ContentsDropped(hash: string -> nat, order: seq<Item>, k: nat)
    requires Keyed(hash, order) && k < |order|
    ensures var rest := order[..k] + order[k + 1..];
      Keyed(hash, rest) && ContentsOf(rest) == ContentsOf(order) - {order[k].item}
  {
    hide Keyed, ContentsOf;
    KeyedLess(hash, order, k);
    ContentsLead(hash, order);
    ContentsAre(hash, order[..k] + order[k + 1..], ContentsOf(order) - {order[k].item});
  }

  // What the table holds does not depend on the order of its items.
  lemma SameItems(hash: string -> nat, s: seq<Item>, t: seq<Item>)
    requires Keyed(hash, s) && NoDup(t) && multiset(s) == multiset(t)
    ensures Keyed(hash, t) && ContentsOf(t) == ContentsOf(s) && Items(s) == Items(t)
  {
    hide ContentsOf;
    assert forall h :: h in s <==> h in multiset(s);
    assert forall h :: h in t <==> h in multiset(t);
    forall i, j | 0 <= i < j < |t| ensures t[i].item != t[j].item {
      assert t[i] in s && t[j] in s && t[i] != t[j];
    }
    ContentsLead(hash, s);
    ContentsAre(hash, t, ContentsOf(s));
  }

  lemma SortStable(cmp: (Item, Item) -> int, s: seq<Item>)
    ensures MergeSort.Preorder(cmp, multiset(s)) ==> MergeSort.StablySorted(cmp, s, MergeSort.Sort(cmp, s, 1))
  {
    if MergeSort.Preorder(cmp, multiset(s)) {
      MergeSort.SortCorrect(cmp, s);
    }
  }

  lemma SortNothing(cmp: (Item, Item) -> int, s: seq<Item>)
    requires s == []
    ensures MergeSort.Sort(cmp, s, 1) == s
  {
  }

  function IdealMaxlen(items: nat, numBuckets: nat, log2: nat): nat
    requires numBuckets > 0
  {
    Shr(items, log2 + 1) + if And(items, numBuckets * 2 - 1) != 0 then 1 else 0
  }

  // The ideal chain length for twice the buckets, by shift and mask.
  lemma IdealIsCeil(items: nat, numBuckets: nat, log2: nat)
    requires numBuckets == Pow2(log2)
    ensures IdealMaxlen(items, numBuckets, log2) == Ceil(items, 2 * numBuckets)
    ensures items > 0 ==> IdealMaxlen(items, numBuckets, log2) > 0
  {
    CeilByBits(items, log2 + 1);
    if items > 0 {
      CeilPositive(items, 2 * numBuckets);
    }
  }

  lemma HalfByShift(x: nat)
    ensures Shr(x, 1) == x / 2
  {
    ShrDivides(x, 1);
    assert Pow2(1) == 2 * Pow2(0) == 2;
  }

  lemma CeilPositive(x: nat, m: nat)
    requires x > 0 && m > 0
    ensures Ceil(x, m) > 0
  {
    CeilIs(x, m);
    if x / m == 0 {
      assert x == (x / m) * m + x % m;
    }
  }
}
