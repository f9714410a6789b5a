/// The crit-bit tree as a value, and what makes one well formed.
module Trie {
  import opened KeyBytes

  datatype Trie<V> =
    | Leaf(key: Key, val: V)
    | Fork(byteNum: nat, bitNum: bv3, left: Trie<V>, right: Trie<V>)

  ghost function Contents<V>(t: Trie<V>): map<Key, V> {
    match t
    case Leaf(k, v) => map[k := v]
    case Fork(_, _, l, r) => Contents(l) + Contents(r)
  }

  ghost predicate Deeper<V>(t: Trie<V>, byteNum: nat, bitNum: bv3) {
    t.Leaf? || Before(byteNum, bitNum, t.byteNum, t.bitNum)
  }

  // Every key of t has the same bits before the given position.
  ghost predicate AllAgree<V>(t: Trie<V>, bits: seq<bv8>, byteNum: nat, bitNum: bv3) {
    forall x :: x in Contents(t) ==> BitsBefore(x, byteNum, bitNum) == bits
  }

  ghost predicate AllHaveBit<V>(t: Trie<V>, byteNum: nat, bitNum: bv3, bit: bool) {
    forall x :: x in Contents(t) ==> BitOf(x, byteNum, bitNum) == bit
  }

  // Keys below a fork agree before its position and are split by the bit there;
  // positions advance strictly downwards.
  ghost predicate WellFormed<V>(t: Trie<V>) {
    match t
    case Leaf(_, _) => true
    case Fork(byteNum, bitNum, l, r) =>
      && WellFormed(l) && WellFormed(r)
      && Deeper(l, byteNum, bitNum) && Deeper(r, byteNum, bitNum)
      && (exists bits :: AllAgree(l, bits, byteNum, bitNum) && AllAgree(r, bits, byteNum, bitNum))
      && AllHaveBit(l, byteNum, bitNum, false) && AllHaveBit(r, byteNum, bitNum, true)
  }

  ghost function Walk<V>(t: Trie<V>, key: Key): Trie<V> {
    match t
    case Leaf(_, _) => t
    case Fork(byteNum, bitNum, l, r) => if BitOf(key, byteNum, bitNum) then Walk(r, key) else Walk(l, key)
  }

  ghost function Insert<V>(t: Trie<V>, key: Key, val: V, byteNum: nat, bitNum: bv3): Trie<V> {
    if t.Leaf? || Before(byteNum, bitNum, t.byteNum, t.bitNum) then
      if BitOf(key, byteNum, bitNum) then Fork(byteNum, bitNum, t, Leaf(key, val))
      else Fork(byteNum, bitNum, Leaf(key, val), t)
    else if BitOf(key, t.byteNum, t.bitNum) then
      t.(right := Insert(t.right, key, val, byteNum, bitNum))
    else
      t.(left := Insert(t.left, key, val, byteNum, bitNum))
  }

  // Raises the sibling of the leaf that the walk for key ends in.
  ghost function Remove<V>(t: Trie<V>, key: Key): Trie<V>
    requires t.Fork?
  {
    if BitOf(key, t.byteNum, t.bitNum) then
      if t.right.Leaf? then t.left else t.(right := Remove(t.right, key))
    else
      if t.left.Leaf? then t.right else t.(left := Remove(t.left, key))
  }

  lemma UnionUpdate<K, V>(l: map<K, V>, r: map<K, V>, k: K, v: V)
    ensures l + r[k := v] == (l + r)[k := v]
    ensures k !in r ==> l[k := v] + r == (l + r)[k := v]
  {
  }

  lemma UnionRemove<K, V>(l: map<K, V>, r: map<K, V>, k: K)
    ensures k !in l ==> l + (r - {k}) == (l + r) - {k}
    ensures k !in r ==> (l - {k}) + r == (l + r) - {k}
    ensures l.Keys == {k} && k !in r ==> r == (l + r) - {k}
    ensures r.Keys == {k} && k !in l ==> l == (l + r) - {k}
  {
  }

  lemma WalkEndsInLeaf<V>(t: Trie<V>, key: Key)
    ensures Walk(t, key).Leaf? && Walk(t, key).key in Contents(t)
  {
  }

  lemma ForkContents<V>(t: Trie<V>)
    requires t.Fork? && WellFormed(t)
    ensures forall k :: k in Contents(t.left) ==> k in Contents(t) && Contents(t)[k] == Contents(t.left)[k]
    ensures forall k :: k in Contents(t.right) ==> k in Contents(t) && Contents(t)[k] == Contents(t.right)[k]
    ensures forall k :: k in Contents(t) ==>
      if BitOf(k, t.byteNum, t.bitNum) then k in Contents(t.right) else k in Contents(t.left)
  {
  }

  lemma NotEmpty<V>(t: Trie<V>)
    ensures Contents(t) != map[]
  {
    WalkEndsInLeaf(t, []);
  }

  // The walk finds every key that is present.
  lemma {:induction false} WalkFinds<V>(t: Trie<V>, key: Key)
    requires WellFormed(t)
    ensures Walk(t, key).Leaf?
    ensures key in Contents(t) <==> Walk(t, key).key == key
    ensures key in Contents(t) ==> Contents(t)[key] == Walk(t, key).val
  {
    if t.Fork? {
      ForkContents(t);
      WalkFinds(t.left, key);
      WalkFinds(t.right, key);
      WalkEndsInLeaf(t, key);
    }
  }

  // The walk for a key ends in a leaf whose key agrees with every key of the tree
  // up to the position of the root fork.
  lemma RootAgreement<V>(t: Trie<V>, x: Key, y: Key)
    requires t.Fork? && WellFormed(t) && x in Contents(t) && y in Contents(t)
    ensures AgreeBefore(x, y, t.byteNum, t.bitNum)
  {
  }

  lemma {:induction false} InsertContents<V>(t: Trie<V>, key: Key, val: V, byteNum: nat, bitNum: bv3)
    requires key !in Contents(t)
    ensures Contents(Insert(t, key, val, byteNum, bitNum)) == Contents(t)[key := val]
  {
    if t.Leaf? || Before(byteNum, bitNum, t.byteNum, t.bitNum) {
      UnionUpdate(Contents(t), map[], key, val);
      UnionUpdate(map[], Contents(t), key, val);
    } else {
      UnionUpdate(Contents(t.left), Contents(t.right), key, val);
      InsertContents(if BitOf(key, t.byteNum, t.bitNum) then t.right else t.left, key, val, byteNum, bitNum);
    }
  }

  // The insertion stops at the first fork past the first difference with the walk's key.
  lemma {:induction false} InsertWellFormed<V>(t: Trie<V>, key: Key, val: V, near: Key, byteNum: nat, bitNum: bv3)
    requires WellFormed(t) && Walk(t, key).Leaf? && near == Walk(t, key).key
    requires FirstDifference(near, key, byteNum, bitNum)
    ensures key !in Contents(t)
    ensures WellFormed(Insert(t, key, val, byteNum, bitNum))
  {
    WalkFinds(t, key);
    WalkEndsInLeaf(t, key);
    if t.Leaf? || Before(byteNum, bitNum, t.byteNum, t.bitNum) {
      InsertHere(t, key, val, near, byteNum, bitNum);
    } else {
      var goRight := BitOf(key, t.byteNum, t.bitNum);
      var child := if goRight then t.right else t.left;
      WalkEndsInLeaf(child, key);
      ForkContents(t);
      assert BitOf(near, t.byteNum, t.bitNum) == goRight;
      AgreeEarlier(near, key, t.byteNum, t.bitNum, byteNum, bitNum);
      InsertWellFormed(child, key, val, near, byteNum, bitNum);
      InsertBelow(t, key, val, near, byteNum, bitNum);
    }
  }

  lemma InsertDeeper<V>(t: Trie<V>, key: Key, val: V, byteNum: nat, bitNum: bv3, byte0: nat, bit0: bv3)
    requires Deeper(t, byte0, bit0) && Before(byte0, bit0, byteNum, bitNum)
    ensures Deeper(Insert(t, key, val, byteNum, bitNum), byte0, bit0)
  {
  }

  lemma InsertBelow<V>(t: Trie<V>, key: Key, val: V, near: Key, byteNum: nat, bitNum: bv3)
    requires WellFormed(t) && t.Fork? && near in Contents(t) && key !in Contents(t)
    requires Before(t.byteNum, t.bitNum, byteNum, bitNum) && AgreeBefore(near, key, t.byteNum, t.bitNum)
    requires WellFormed(Insert(if BitOf(key, t.byteNum, t.bitNum) then t.right else t.left, key, val, byteNum, bitNum))
    ensures WellFormed(Insert(t, key, val, byteNum, bitNum))
  {
    ForkContents(t);
    var child := if BitOf(key, t.byteNum, t.bitNum) then t.right else t.left;
    InsertContents(child, key, val, byteNum, bitNum);
    var bits := BitsBefore(key, t.byteNum, t.bitNum);
    assert AllAgree(t.left, bits, t.byteNum, t.bitNum) && AllAgree(t.right, bits, t.byteNum, t.bitNum);
    var child' := Insert(child, key, val, byteNum, bitNum);
    assert AllAgree(child', bits, t.byteNum, t.bitNum);
    assert AllHaveBit(child', t.byteNum, t.bitNum, BitOf(key, t.byteNum, t.bitNum));
    InsertDeeper(child, key, val, byteNum, bitNum, t.byteNum, t.bitNum);
  }

  lemma InsertHere<V>(t: Trie<V>, key: Key, val: V, near: Key, byteNum: nat, bitNum: bv3)
    requires WellFormed(t) && near in Contents(t)
    requires t.Leaf? || Before(byteNum, bitNum, t.byteNum, t.bitNum)
    requires FirstDifference(near, key, byteNum, bitNum)
    ensures WellFormed(Insert(t, key, val, byteNum, bitNum))
  {
    forall x | x in Contents(t)
      ensures AgreeBefore(x, key, byteNum, bitNum) && BitOf(x, byteNum, bitNum) == BitOf(near, byteNum, bitNum)
    {
      if t.Fork? {
        RootAgreement(t, x, near);
        AgreeEarlier(x, near, byteNum, bitNum, t.byteNum, t.bitNum);
      }
    }
    var bits := BitsBefore(key, byteNum, bitNum);
    assert AllAgree(t, bits, byteNum, bitNum) && AllAgree(Leaf(key, val), bits, byteNum, bitNum);
    assert AllHaveBit(t, byteNum, bitNum, !BitOf(key, byteNum, bitNum));
    assert AllHaveBit(Leaf(key, val), byteNum, bitNum, BitOf(key, byteNum, bitNum));
  }

  lemma {:induction false} RemoveWellFormed<V>(t: Trie<V>, key: Key)
    requires t.Fork? && WellFormed(t) && key in Contents(t)
    ensures Contents(Remove(t, key)) == Contents(t) - {key}
    ensures WellFormed(Remove(t, key))
    ensures forall byteNum, bitNum :: Deeper(t, byteNum, bitNum) ==> Deeper(Remove(t, key), byteNum, bitNum)
  {
    ForkContents(t);
    var child := if BitOf(key, t.byteNum, t.bitNum) then t.right else t.left;
    if child.Fork? {
      RemoveWellFormed(child, key);
    }
    UnionRemove(Contents(t.left), Contents(t.right), key);
  }

  lemma RemoveContents<V>(t: Trie<V>, key: Key)
    requires WellFormed(t) && key in Contents(t)
    ensures t.Fork? ==> WellFormed(Remove(t, key)) && Contents(Remove(t, key)) == Contents(t) - {key}
  {
    if t.Fork? {
      RemoveWellFormed(t, key);
    }
  }
}
