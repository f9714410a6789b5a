/// What the shape of a crit-bit tree says about order, prefixes and identity.
module TrieTheory {
  import opened KeyBytes
  import opened Trie

  ghost function InOrder<V>(t: Trie<V>): seq<(Key, V)> {
    match t
    case Leaf(k, v) => [(k, v)]
    case Fork(_, _, l, r) => InOrder(l) + InOrder(r)
  }

  ghost predicate StrictlyIncreasing<V>(es: seq<(Key, V)>) {
    forall i, j :: 0 <= i < j < |es| ==> Precedes(es[i].0, es[j].0)
  }

  lemma InOrderIn<V>(t: Trie<V>, i: nat)
    requires WellFormed(t) && i < |InOrder(t)|
    ensures InOrder(t)[i].0 in Contents(t) && Contents(t)[InOrder(t)[i].0] == InOrder(t)[i].1
  {
    if t.Fork? {
      ForkContents(t);
      if i < |InOrder(t.left)| {
        InOrderIn(t.left, i);
      } else {
        InOrderIn(t.right, i - |InOrder(t.left)|);
      }
    }
  }

  lemma {:induction false} InOrderHas<V>(t: Trie<V>, k: Key)
    requires WellFormed(t) && k in Contents(t)
    ensures (k, Contents(t)[k]) in InOrder(t)
  {
    if t.Fork? {
      ForkContents(t);
      InOrderHas(if BitOf(k, t.byteNum, t.bitNum) then t.right else t.left, k);
    }
  }

  // Left before right is unsigned-byte lexicographic order.
  lemma {:induction false} InOrderSorted<V>(t: Trie<V>)
    requires WellFormed(t)
    ensures StrictlyIncreasing(InOrder(t))
  {
    if t.Fork? {
      InOrderSorted(t.left);
      InOrderSorted(t.right);
      ForkContents(t);
      var n := |InOrder(t.left)|;
      forall i, j | 0 <= i < n <= j < |InOrder(t)| ensures Precedes(InOrder(t)[i].0, InOrder(t)[j].0) {
        InOrderIn(t.left, i);
        InOrderIn(t.right, j - n);
        RootAgreement(t, InOrder(t)[i].0, InOrder(t)[j].0);
        OrderByFirstDifference(InOrder(t)[i].0, InOrder(t)[j].0, t.byteNum, t.bitNum);
      }
    }
  }

  // The walk in order lists exactly the entries of the map, each once, in strcmp order.
  lemma InOrderListsEntries<V>(t: Trie<V>)
    requires WellFormed(t)
    ensures StrictlyIncreasing(InOrder(t))
    ensures forall k, v :: (k, v) in InOrder(t) <==> k in Contents(t) && Contents(t)[k] == v
  {
    InOrderSorted(t);
    forall k, v ensures (k, v) in InOrder(t) <==> k in Contents(t) && Contents(t)[k] == v {
      if (k, v) in InOrder(t) {
        var i :| 0 <= i < |InOrder(t)| && InOrder(t)[i] == (k, v);
        InOrderIn(t, i);
      }
      if k in Contents(t) {
        InOrderHas(t, k);
      }
    }
  }

  lemma SplitKeys<V>(t: Trie<V>) returns (x: Key, y: Key)
    requires t.Fork? && WellFormed(t)
    ensures x in Contents(t) && y in Contents(t) && x != y
    ensures FirstDifference(x, y, t.byteNum, t.bitNum)
  {
    WalkEndsInLeaf(t.left, []);
    WalkEndsInLeaf(t.right, []);
    ForkContents(t);
    x, y := Walk(t.left, []).key, Walk(t.right, []).key;
    RootAgreement(t, x, y);
  }

  lemma RootNotBefore<V>(t1: Trie<V>, t2: Trie<V>)
    requires WellFormed(t1) && WellFormed(t2) && t1.Fork? && t2.Fork? && Contents(t1) == Contents(t2)
    ensures !Before(t1.byteNum, t1.bitNum, t2.byteNum, t2.bitNum)
  {
    var x, y := SplitKeys(t1);
    RootAgreement(t2, x, y);
    if Before(t1.byteNum, t1.bitNum, t2.byteNum, t2.bitNum) {
      AgreeEarlier(x, y, t1.byteNum, t1.bitNum, t2.byteNum, t2.bitNum);
    }
  }

  lemma LeafIsNoFork<V>(t1: Trie<V>, t2: Trie<V>)
    requires t1.Leaf? && t2.Fork? && WellFormed(t2)
    ensures Contents(t1) != Contents(t2)
  {
    var x, y := SplitKeys(t2);
    assert x in Contents(t1) && y in Contents(t1) ==> false;
  }

  // The tree is determined by the map it stands for, whatever the order of insertions was.
  lemma {:induction false} Canonical<V>(t1: Trie<V>, t2: Trie<V>)
    requires WellFormed(t1) && WellFormed(t2) && Contents(t1) == Contents(t2)
    ensures t1 == t2
  {
    if t1.Leaf? && t2.Leaf? {
      assert t1.key in Contents(t2);
    } else if t1.Leaf? {
      LeafIsNoFork(t1, t2);
    } else if t2.Leaf? {
      LeafIsNoFork(t2, t1);
    } else {
      RootNotBefore(t1, t2);
      RootNotBefore(t2, t1);
      HalvesByBit(t1);
      HalvesByBit(t2);
      Canonical(t1.left, t2.left);
      Canonical(t1.right, t2.right);
    }
  }

  ghost function WithBit<V>(m: map<Key, V>, byteNum: nat, bitNum: bv3, bit: bool): map<Key, V> {
    map k | k in m && BitOf(k, byteNum, bitNum) == bit :: m[k]
  }

  lemma HalvesByBit<V>(t: Trie<V>)
    requires t.Fork? && WellFormed(t)
    ensures Contents(t.left) == WithBit(Contents(t), t.byteNum, t.bitNum, false)
    ensures Contents(t.right) == WithBit(Contents(t), t.byteNum, t.bitNum, true)
  {
    ForkContents(t);
  }

  // Deleting the key that was just put gives back the very tree that was there before.
  lemma PutThenDeleteRestores<V>(t: Trie<V>, key: Key, val: V, byteNum: nat, bitNum: bv3)
    requires WellFormed(t) && Walk(t, key).Leaf? && FirstDifference(Walk(t, key).key, key, byteNum, bitNum)
    ensures Insert(t, key, val, byteNum, bitNum).Fork?
    ensures Remove(Insert(t, key, val, byteNum, bitNum), key) == t
  {
    InsertWellFormed(t, key, val, Walk(t, key).key, byteNum, bitNum);
    InsertContents(t, key, val, byteNum, bitNum);
    var t' := Insert(t, key, val, byteNum, bitNum);
    RemoveWellFormed(t', key);
    UpdateThenDrop(Contents(t), key, val);
    Canonical(Remove(t', key), t);
  }

  lemma UpdateThenDrop<K, V>(m: map<K, V>, k: K, v: V)
    requires k !in m
    ensures m[k := v] - {k} == m
  {
  }

  // map_put on a non-empty tree: a key that is present is refused.
  ghost function PutTrie<V>(t: Trie<V>, key: Key, val: V): (t': Trie<V>)
    requires WellFormed(t)
    ensures WellFormed(t')
    ensures Contents(t') == if key in Contents(t) then Contents(t) else Contents(t)[key := val]
  {
    WalkFinds(t, key);
    if key in Contents(t) then t
    else
      var near := Walk(t, key).key;
      assert exists byteNum, bitNum :: FirstDifference(near, key, byteNum, bitNum) by {
        var byteNum, bitNum := FirstDifferenceExists(near, key);
      }
      var byteNum, bitNum :| FirstDifference(near, key, byteNum, bitNum);
      InsertContents(t, key, val, byteNum, bitNum);
      InsertWellFormed(t, key, val, near, byteNum, bitNum);
      Insert(t, key, val, byteNum, bitNum)
  }

  ghost function Build<V>(es: seq<(Key, V)>): (t: Trie<V>)
    requires es != []
    ensures WellFormed(t)
  {
    if |es| == 1 then Leaf(es[0].0, es[0].1)
    else PutTrie(Build(es[..|es| - 1]), es[|es| - 1].0, es[|es| - 1].1)
  }

  ghost predicate Functional<V>(es: seq<(Key, V)>) {
    forall e, f :: e in es && f in es && e.0 == f.0 ==> e == f
  }

  lemma {:induction false} BuildContents<V>(es: seq<(Key, V)>)
    requires es != [] && Functional(es)
    ensures forall e :: e in es ==> e.0 in Contents(Build(es)) && Contents(Build(es))[e.0] == e.1
    ensures forall k :: k in Contents(Build(es)) ==> (k, Contents(Build(es))[k]) in es
  {
    if |es| > 1 {
      var init, last := es[..|es| - 1], es[|es| - 1];
      assert es == init + [last];
      BuildContents(init);
      if last.0 in Contents(Build(init)) {
        assert (last.0, Contents(Build(init))[last.0]) in init;
      }
    }
  }

  // Insertions in any order, repeated or not, build the same tree.
  lemma AnyOrderSameTree<V>(es: seq<(Key, V)>, fs: seq<(Key, V)>)
    requires es != [] && fs != [] && Functional(es) && forall e :: e in es <==> e in fs
    ensures Build(es) == Build(fs)
  {
    BuildContents(es);
    BuildContents(fs);
    var m, n := Contents(Build(es)), Contents(Build(fs));
    forall k ensures k in m ==> k in n && m[k] == n[k] {
      if k in m {
        assert (k, m[k]) in es;
      }
    }
    forall k ensures k in n ==> k in m {
      if k in n {
        assert (k, n[k]) in fs;
      }
    }
    assert m == n;
    Canonical(Build(es), Build(fs));
  }

  // The subtree that map_prefix settles on: below every node that looks at a byte of the prefix.
  ghost function PrefixTop<V>(t: Trie<V>, prefix: Key): Trie<V> {
    if t.Leaf? || t.byteNum >= |prefix| then t
    else PrefixTop(if BitOf(prefix, t.byteNum, t.bitNum) then t.right else t.left, prefix)
  }

  ghost function Extensions<V>(m: map<Key, V>, prefix: Key): map<Key, V> {
    map k | k in m && prefix <= k :: m[k]
  }

  lemma {:induction false} PrefixTopHolds<V>(t: Trie<V>, prefix: Key)
    requires WellFormed(t)
    ensures WellFormed(PrefixTop(t, prefix))
    ensures Walk(PrefixTop(t, prefix), prefix) == Walk(t, prefix)
    ensures forall k :: k in Contents(PrefixTop(t, prefix)) ==>
      k in Contents(t) && Contents(t)[k] == Contents(PrefixTop(t, prefix))[k]
    ensures forall k :: k in Contents(t) && prefix <= k ==> k in Contents(PrefixTop(t, prefix))
  {
    if t.Fork? && t.byteNum < |prefix| {
      ForkContents(t);
      PrefixTopHolds(if BitOf(prefix, t.byteNum, t.bitNum) then t.right else t.left, prefix);
      forall k | k in Contents(t) && prefix <= k
        ensures BitOf(k, t.byteNum, t.bitNum) == BitOf(prefix, t.byteNum, t.bitNum)
      {
        assert k[t.byteNum] == prefix[t.byteNum];
      }
    }
  }

  lemma SharedPrefix(x: Key, y: Key, prefix: Key, byteNum: nat, bitNum: bv3)
    requires AgreeBefore(x, y, byteNum, bitNum) && |prefix| <= byteNum && prefix <= x
    ensures prefix <= y
  {
    AgreementIsBytewise(x, y, byteNum, bitNum);
    forall i | 0 <= i < |prefix| ensures i < |y| && y[i] == prefix[i] {
      assert prefix[i] == x[i];
      assert ByteAt(x, i) == x[i] != 0;
      assert ByteAt(x, i) == ByteAt(y, i);
    }
    if prefix != [] {
      var last := prefix[|prefix| - 1];
      assert |prefix| - 1 < |y|;
    }
    assert prefix == y[..|prefix|];
  }

  // One leaf tells: either it has the prefix and the subtree is exactly the keys with that
  // prefix, or it has not and no key of the map does.
  lemma PrefixTopExact<V>(t: Trie<V>, prefix: Key)
    requires WellFormed(t)
    ensures Walk(t, prefix).Leaf?
    ensures prefix <= Walk(t, prefix).key ==> Contents(PrefixTop(t, prefix)) == Extensions(Contents(t), prefix)
    ensures prefix <= Walk(t, prefix).key <==> Extensions(Contents(t), prefix) != map[]
  {
    PrefixTopHolds(t, prefix);
    WalkEndsInLeaf(t, prefix);
    var top := PrefixTop(t, prefix);
    WalkEndsInLeaf(top, prefix);
    var leaf := Walk(t, prefix).key;
    forall x, y | x in Contents(top) && y in Contents(top) && prefix <= x ensures prefix <= y {
      if top.Fork? {
        PrefixTopIsDeep(t, prefix);
        RootAgreement(top, x, y);
        SharedPrefix(x, y, prefix, top.byteNum, top.bitNum);
      }
    }
    if prefix <= leaf {
      assert leaf in Extensions(Contents(t), prefix);
      assert Contents(top).Keys == Extensions(Contents(t), prefix).Keys;
    } else {
      forall k | k in Contents(t) ensures !(prefix <= k) {
      }
    }
  }

  lemma PrefixTopIsDeep<V>(t: Trie<V>, prefix: Key)
    ensures PrefixTop(t, prefix).Fork? ==> PrefixTop(t, prefix).byteNum >= |prefix|
  {
  }
}
