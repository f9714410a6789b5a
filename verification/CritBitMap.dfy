/// The in-place crit-bit map: slots that hold either an entry or a pointer to an inner node.
///
/// A ghost Shape records which slot object sits where in the tree. Matches(shape) ties it to the
/// heap, and Around(shape, slot) is the same statement with a hole at one slot, which is all that
/// an in-place update of that slot can break.
module CritBitMap {
  import opened KeyBytes
  import opened Trie
  import opened TrieTheory

  datatype Option<+V> = None | Some(value: V)
  datatype Errno = NoError | InvalidValue | KeyExists | NoEntry

  // The union inside a slot: a null pointer, an inner node, or the key of an entry.
  datatype Link<V> = Null | Inner(node: Node<V>) | Text(key: Key)

  class Node<V(==)> {
    const left: Map<V>
    const right: Map<V>
    const byteNum: nat
    const bitNum: bv3

    constructor (byteNum: nat, bitNum: bv3, left: Map<V>, right: Map<V>)
      ensures this.byteNum == byteNum && this.bitNum == bitNum && this.left == left && this.right == right
    {
      this.byteNum, this.bitNum, this.left, this.right := byteNum, bitNum, left, right;
    }

    function Child(goRight: bool): Map<V> {
      if goRight then right else left
    }
  }

  datatype Shape<V> =
    | Tip(slot: Map<V>, key: Key, val: V)
    | Branch(slot: Map<V>, node: Node<V>, left: Shape<V>, right: Shape<V>)

  ghost function Slots<V>(sh: Shape<V>): set<Map<V>> {
    match sh
    case Tip(s, _, _) => {s}
    case Branch(s, _, l, r) => {s} + Slots(l) + Slots(r)
  }

  ghost function Erase<V>(sh: Shape<V>): Trie<V> {
    match sh
    case Tip(_, k, v) => Leaf(k, v)
    case Branch(_, n, l, r) => Fork(n.byteNum, n.bitNum, Erase(l), Erase(r))
  }

  // The heap holds exactly this tree, and no slot occurs in it twice.
  ghost predicate Matches<V>(sh: Shape<V>)
    reads Slots(sh)
  {
    match sh
    case Tip(s, k, v) => s.u == Text(k) && s.v == Some(v)
    case Branch(s, n, l, r) =>
      && s.u == Inner(n) && s.v == None
      && n.left == l.slot && n.right == r.slot
      && s !in Slots(l) && s !in Slots(r) && Slots(l) !! Slots(r)
      && Matches(l) && Matches(r)
  }

  // As Matches, but nothing is said about the subtree in the given slot.
  ghost predicate Around<V>(sh: Shape<V>, hole: Map<V>)
    reads Slots(sh) - {hole}
  {
    sh.slot == hole ||
    match sh
    case Tip(s, k, v) => s.u == Text(k) && s.v == Some(v)
    case Branch(s, n, l, r) =>
      && s.u == Inner(n) && s.v == None
      && n.left == l.slot && n.right == r.slot
      && s !in Slots(l) && s !in Slots(r) && Slots(l) !! Slots(r)
      && Around(l, hole) && Around(r, hole)
  }

  ghost function Plug<V>(sh: Shape<V>, hole: Map<V>, sub: Shape<V>): Shape<V> {
    if sh.slot == hole then sub
    else match sh
      case Tip(_, _, _) => sh
      case Branch(s, n, l, r) => Branch(s, n, Plug(l, hole, sub), Plug(r, hole, sub))
  }

  ghost predicate Within<V>(sub: Shape<V>, sh: Shape<V>) {
    sub == sh || (sh.Branch? && (Within(sub, sh.left) || Within(sub, sh.right)))
  }

  lemma WithinSlots<V>(sub: Shape<V>, sh: Shape<V>)
    requires Within(sub, sh)
    ensures Slots(sub) <= Slots(sh) && sub.slot in Slots(sub)
  {
  }

  lemma WithinTransitive<V>(a: Shape<V>, b: Shape<V>, c: Shape<V>)
    requires Within(a, b) && Within(b, c)
    ensures Within(a, c)
  {
  }

  lemma MatchesInside<V>(sub: Shape<V>, sh: Shape<V>)
    requires Matches(sh) && Within(sub, sh)
    ensures Matches(sub)
  {
  }

  lemma MatchesAround<V>(sh: Shape<V>, hole: Map<V>)
    requires Matches(sh)
    ensures Around(sh, hole)
  {
  }

  lemma PlugNowhere<V>(sh: Shape<V>, hole: Map<V>, sub: Shape<V>)
    requires hole !in Slots(sh)
    ensures Plug(sh, hole, sub) == sh
  {
  }

  // Filling the hole: the new subtree may use the slots of the old one and fresh slots.
  lemma {:induction false} Fill<V>(sh: Shape<V>, old': Shape<V>, new': Shape<V>, extra: set<Map<V>>)
    requires Within(old', sh) && Around(sh, old'.slot) && old'.slot == new'.slot
    requires Matches(new') && Slots(new') <= Slots(old') + extra && extra !! Slots(sh)
    requires DistinctSlots(sh)
    ensures Matches(Plug(sh, old'.slot, new'))
    ensures Slots(Plug(sh, old'.slot, new')) <= Slots(sh) + extra
    ensures Plug(sh, old'.slot, new').slot == sh.slot
  {
    if sh.slot == old'.slot {
      WithinSlots(old', sh);
    } else {
      if Within(old', sh.left) {
        WithinSlots(old', sh.left);
        Fill(sh.left, old', new', extra);
        PlugNowhere(sh.right, old'.slot, new');
        AroundElsewhere(sh.right, old'.slot);
      } else {
        WithinSlots(old', sh.right);
        Fill(sh.right, old', new', extra);
        PlugNowhere(sh.left, old'.slot, new');
        AroundElsewhere(sh.left, old'.slot);
      }
    }
  }

  ghost predicate DistinctSlots<V>(sh: Shape<V>) {
    sh.Branch? ==>
      && sh.slot !in Slots(sh.left) && sh.slot !in Slots(sh.right) && Slots(sh.left) !! Slots(sh.right)
      && DistinctSlots(sh.left) && DistinctSlots(sh.right)
  }

  lemma MatchesDistinct<V>(sh: Shape<V>)
    requires Matches(sh)
    ensures DistinctSlots(sh)
  {
  }

  lemma AroundElsewhere<V>(sh: Shape<V>, hole: Map<V>)
    requires hole !in Slots(sh) && Around(sh, hole)
    ensures Matches(sh)
  {
  }

  // The tree that sh becomes when its subtree in the hole is replaced by t.
  ghost function PlugTrie<V>(sh: Shape<V>, hole: Map<V>, t: Trie<V>): Trie<V> {
    if sh.slot == hole then t
    else match sh
      case Tip(_, k, v) => Leaf(k, v)
      case Branch(_, n, l, r) => Fork(n.byteNum, n.bitNum, PlugTrie(l, hole, t), PlugTrie(r, hole, t))
  }

  lemma ErasePlug<V>(sh: Shape<V>, hole: Map<V>, sub: Shape<V>)
    ensures Erase(Plug(sh, hole, sub)) == PlugTrie(sh, hole, Erase(sub))
  {
  }

  lemma PlugTrieNowhere<V>(sh: Shape<V>, hole: Map<V>, t: Trie<V>)
    requires hole !in Slots(sh)
    ensures PlugTrie(sh, hole, t) == Erase(sh)
  {
  }

  // One step down from the hole sub to one of its children.
  lemma {:induction false} PlugStep<V>(sh: Shape<V>, sub: Shape<V>, goRight: bool, t: Trie<V>)
    requires DistinctSlots(sh) && Within(sub, sh) && sub.Branch?
    ensures
      var below := if goRight then Fork(sub.node.byteNum, sub.node.bitNum, Erase(sub.left), t)
                   else Fork(sub.node.byteNum, sub.node.bitNum, t, Erase(sub.right));
      PlugTrie(sh, (if goRight then sub.right else sub.left).slot, t) == PlugTrie(sh, sub.slot, below)
  {
    var child := if goRight then sub.right else sub.left;
    assert Within(child, sub);
    WithinTransitive(child, sub, sh);
    WithinSlots(sub, sh);
    WithinSlots(child, sub);
    if sub == sh {
      PlugTrieNowhere(if goRight then sub.left else sub.right, child.slot, t);
    } else {
      var inner, other :=
        if Within(sub, sh.left) then sh.left else sh.right, if Within(sub, sh.left) then sh.right else sh.left;
      WithinSlots(sub, inner);
      WithinTransitive(child, sub, inner);
      WithinSlots(child, inner);
      PlugStep(inner, sub, goRight, t);
      PlugTrieNowhere(other, child.slot, t);
      PlugTrieNowhere(other, sub.slot,
        if goRight then Fork(sub.node.byteNum, sub.node.bitNum, Erase(sub.left), t)
        else Fork(sub.node.byteNum, sub.node.bitNum, t, Erase(sub.right)));
    }
  }

  // One call of the callback of an iteration: the data that it gets and gives back, and whether it goes on.
  datatype Call<V, D> = Call(before: D, key: Key, val: V, after: D, more: bool)

  // The calls are for the first of these entries, one after the other, each with the data that the one before gave
  // back. The first refusal is the last call; without one there is a call for every entry.
  ghost predicate Calls<V, D>(es: seq<(Key, V)>, handle: (D, Key, V) -> (D, bool), data: D, calls: seq<Call<V, D>>) {
    && |calls| <= |es|
    && (forall i :: 0 <= i < |calls| ==>
          && calls[i].key == es[i].0 && calls[i].val == es[i].1
          && handle(calls[i].before, calls[i].key, calls[i].val) == (calls[i].after, calls[i].more))
    && (calls != [] ==> calls[0].before == data)
    && (forall i {:trigger calls[i].before} :: 0 < i < |calls| ==> calls[i].before == calls[i - 1].after)
    && (forall i :: 0 <= i < |calls| - 1 ==> calls[i].more)
    && (|calls| == |es| || (calls != [] && !calls[|calls| - 1].more))
  }

  // What an iteration over two parts in a row does.
  lemma CallsAppend<V, D>(es: seq<(Key, V)>, fs: seq<(Key, V)>, handle: (D, Key, V) -> (D, bool), data: D,
                          calls: seq<Call<V, D>>, more: seq<Call<V, D>>)
    requires Calls(es, handle, data, calls) && calls != []
    requires var last := calls[|calls| - 1];
      if last.more then Calls(fs, handle, last.after, more) else more == []
    ensures Calls(es + fs, handle, data, calls + more)
  {
    var all := calls + more;
    assert calls[|calls| - 1].more ==> |calls| == |es|;
    forall i | 0 <= i < |all|
      ensures all[i].key == (es + fs)[i].0 && all[i].val == (es + fs)[i].1
      ensures handle(all[i].before, all[i].key, all[i].val) == (all[i].after, all[i].more)
      ensures i < |all| - 1 ==> all[i].more
    {
      assert if i < |calls| then all[i] == calls[i] && (es + fs)[i] == es[i]
             else all[i] == more[i - |calls|] && (es + fs)[i] == fs[i - |es|];
    }
    forall i | 0 < i < |all| ensures all[i].before == all[i - 1].after {
      assert all[i] == if i < |calls| then calls[i] else more[i - |calls|];
      assert all[i - 1] == if i <= |calls| then calls[i - 1] else more[i - 1 - |calls|];
    }
  }

  ghost function UniqueMatch<V>(m: map<Key, V>, prefix: Key): Option<V> {
    if prefix in m then Some(m[prefix])
    else if exists k :: Extensions(m, prefix).Keys == {k} then
      var k :| Extensions(m, prefix).Keys == {k};
      Some(Extensions(m, prefix)[k])
    else None
  }

  lemma OnlyExtension<V>(t: Trie<V>, ext: map<Key, V>)
    requires WellFormed(t) && Contents(t) == ext
    ensures t.Leaf? ==> ext.Keys == {t.key}
    ensures t.Fork? ==> forall k :: ext.Keys != {k}
  {
    if t.Fork? {
      var x, y := SplitKeys(t);
    }
  }

  lemma UnionAssociates<K, V>(a: map<K, V>, b: map<K, V>, c: map<K, V>)
    ensures (a + b) + c == a + (b + c)
  {
  }

  lemma UnionOne<K, V>(a: map<K, V>, k: K, v: V)
    ensures a + map[k := v] == a[k := v]
    ensures k in a && a[k] == v ==> a[k := v] == a
    ensures (a - {k})[k := v] == a[k := v] && k !in a - {k}
  {
  }

  // The sibling of the leaf on the given side, moved into its parent's slot.
  ghost function Raised<V>(psub: Shape<V>, direction: bool): Shape<V>
    requires psub.Branch?
  {
    (if direction then psub.left else psub.right).(slot := psub.slot)
  }

  class Map<V(==)> {
    var u: Link<V>
    var v: Option<V>
    ghost var shape: Option<Shape<V>>  // the tree rooted in this slot, kept for maps only

    ghost var repr: set<Map<V>>        // this slot and every slot of the tree

    ghost predicate Valid()
      reads this, repr
    {
      && this in repr
      && (u.Null? <==> shape.None?)
      && (shape.Some? ==> IsTree(shape.value))
    }

    ghost predicate IsTree(sh: Shape<V>)
      reads this, repr
    {
      Slots(sh) <= repr && sh.slot == this && Matches(sh) && WellFormed(Erase(sh))
    }

    // The finite map that the tree stands for.
    ghost function Entries(): map<Key, V>
      reads this
    {
      if shape.Some? then Contents(Erase(shape.value)) else map[]
    }

    constructor ()
      ensures Valid() && Entries() == map[] && fresh(repr) && u.Null? && v.None?
    {
      u, v, shape := Null, None, None;
      repr := {this};
    }

    constructor Holding(u: Link<V>, v: Option<V>)
      ensures this.u == u && this.v == v
    {
      this.u, this.v, shape, repr := u, v, None, {};
    }

    method SetInner(node: Node<V>)
      modifies this`u, this`v
      ensures u == Inner(node) && v == None
    {
      u, v := Inner(node), None;
    }

    method Assign(other: Map<V>)
      modifies this`u, this`v
      ensures u == old(other.u) && v == old(other.v)
    {
      u, v := other.u, other.v;
    }

    // The bit of the key that a node looks at; past the key's end it is zero.
    static function Direction(key: Key, byteNum: nat, bitNum: bv3): (r: bool)
      ensures r == BitOf(key, byteNum, bitNum)
    {
      if byteNum < |key| then Bit(key[byteNum], bitNum) else false
    }

    method Closest(key: Key, ghost sh: Shape<V>) returns (n: Map<V>, ghost leaf: Shape<V>)
      requires Matches(sh) && sh.slot == this
      ensures Within(leaf, sh) && leaf.slot == n && n in Slots(sh) && Matches(leaf)
      ensures leaf.Tip? && Erase(leaf) == Walk(Erase(sh), key)
    {
      n := this;
      leaf := sh;
      while n.v.None?
        invariant Within(leaf, sh) && leaf.slot == n && Matches(leaf)
        invariant Walk(Erase(leaf), key) == Walk(Erase(sh), key)
        decreases leaf
      {
        var direction := Direction(key, n.u.node.byteNum, n.u.node.bitNum);
        ghost var below := if direction then leaf.right else leaf.left;
        WithinTransitive(below, leaf, sh);
        n := n.u.node.Child(direction);
        leaf := below;
      }
      WithinSlots(leaf, sh);
    }

    method IsEmpty() returns (empty: bool)
      requires Valid()
      ensures empty <==> Entries() == map[]
    {
      if shape.Some? {
        WalkEndsInLeaf(Erase(shape.value), []);
      }
      empty := u.Null?;
    }

    method Get(key: Key) returns (r: Option<V>)
      requires Valid()
      ensures r == if key in Entries() then Some(Entries()[key]) else None
    {
      if !u.Null? {
        WalkFinds(Erase(shape.value), key);
        var n, leaf := Closest(key, shape.value);
        var same, _ := FirstDifferingByte(key, n.u.key);
        if same {
          return n.v;
        }
      }
      return None;
    }

    method Put(key: Key, value: Option<V>) returns (ok: bool, err: Errno)
      requires Valid()
      modifies repr
      ensures Valid() && fresh(repr - old(repr))
      ensures ok <==> value.Some? && key !in old(Entries())
      ensures Entries() == if ok then old(Entries())[key := value.value] else old(Entries())
      ensures !ok ==> shape == old(shape)
      ensures err == if value.None? then InvalidValue else if ok then NoError else KeyExists
    {
      hide Insert, Walk, BitsBefore;
      if value.None? {
        return false, InvalidValue;
      }
      if u.Null? {
        u, v := Text(key), value;
        shape := Some(Tip(this, key, value.value));
        return true, NoError;
      }
      ghost var t := Erase(shape.value);
      WalkFinds(t, key);
      var n, leaf := Closest(key, shape.value);
      var same, byteNum := FirstDifferingByte(n.u.key, key);
      if same {
        return false, KeyExists;
      }
      var bitNum := TopDifferingBit(ByteAt(n.u.key, byteNum), ByteAt(key, byteNum));
      AgreementIsBytewise(n.u.key, key, byteNum, bitNum);
      InsertContents(t, key, value.value, byteNum, bitNum);
      InsertWellFormed(t, key, value.value, n.u.key, byteNum, bitNum);
      InsertAt(shape.value, key, value.value, byteNum, bitNum);
      return true, NoError;
    }

    method Delete(key: Key) returns (value: Option<V>, err: Errno)
      requires Valid()
      modifies repr
      ensures Valid() && repr == old(repr)
      ensures value == if key in old(Entries()) then Some(old(Entries())[key]) else None
      ensures Entries() == old(Entries()) - {key}
      ensures err == if value.Some? then NoError else NoEntry
      // Removing the last entry empties the union but leaves the old value in the slot.
      ensures value.Some? && Entries() == map[] ==> v == value
    {
      if u.Null? {
        return None, NoEntry;
      }
      ghost var sh := shape.value;
      ghost var t := Erase(sh);
      WalkFinds(t, key);
      var n, parent, direction;
      ghost var leaf, psub;
      n, leaf, parent, psub, direction := LeafAndParent(sh, key);
      var same, _ := FirstDifferingByte(key, n.u.key);
      if !same {
        assert key !in Entries();
        return None, NoEntry;
      }
      value, err := n.v, NoError;
      if parent == null {
        u := Null;
        shape := None;
        assert old(Entries()) - {key} == map[];
      } else {
        RemoveContents(t, key);
        RemoveAt(sh, parent, psub, direction);
        NotEmpty(Erase(shape.value));
      }
    }

    method RemoveAt(ghost sh: Shape<V>, parent: Map<V>, ghost psub: Shape<V>, direction: bool)
      requires Matches(sh) && sh.slot == this && this in repr && Slots(sh) <= repr
      requires Within(psub, sh) && psub.slot == parent && psub.Branch?
      modifies repr
      ensures shape.Some? && shape.value.slot == this && Matches(shape.value)
      ensures repr == old(repr) && Slots(shape.value) <= repr
      ensures Erase(shape.value) == PlugTrie(sh, parent, Erase(if direction then psub.left else psub.right))
    {
      WithinSlots(psub, sh);
      RaiseSibling(parent, psub, sh, repr, direction);
      shape := Some(Plug(sh, parent, Raised(psub, direction)));
    }

    // The walk to the leaf closest to the key, with the slot above it (null at the root).
    method LeafAndParent(ghost sh: Shape<V>, key: Key)
      returns (n: Map<V>, ghost leaf: Shape<V>, parent: Map?<V>, ghost psub: Shape<V>, direction: bool)
      requires Matches(sh) && sh.slot == this
      ensures leaf.Tip? && leaf.slot == n && Matches(leaf) && Erase(leaf) == Walk(Erase(sh), key)
      ensures parent == null ==> sh == leaf
      ensures parent != null ==>
        && sh.Branch? && Within(psub, sh) && psub.slot == parent && psub.Branch?
        && leaf == (if direction then psub.right else psub.left)
        && Remove(Erase(sh), key) == PlugTrie(sh, parent, Erase(if direction then psub.left else psub.right))
    {
      MatchesDistinct(sh);
      n, leaf, parent, psub, direction := this, sh, null, sh, false;
      while n.v.None?
        invariant Within(leaf, sh) && leaf.slot == n && Matches(leaf)
        invariant Walk(Erase(leaf), key) == Walk(Erase(sh), key)
        invariant parent == null ==> leaf == sh
        invariant parent != null ==>
          && sh.Branch? && Within(psub, sh) && psub.slot == parent && psub.Branch?
          && direction == BitOf(key, psub.node.byteNum, psub.node.bitNum)
          && leaf == (if direction then psub.right else psub.left)
          && Remove(Erase(sh), key) == PlugTrie(sh, parent, Remove(Erase(psub), key))
        decreases leaf
      {
        if parent != null {
          PlugStep(sh, psub, direction, Remove(Erase(leaf), key));
        }
        parent, psub := n, leaf;
        direction := Direction(key, n.u.node.byteNum, n.u.node.bitNum);
        leaf := if direction then psub.right else psub.left;
        WithinTransitive(leaf, psub, sh);
        n := n.u.node.Child(direction);
      }
    }

    // Ordered iteration: the callback may stop it.
    method Iterate<D>(handle: (D, Key, V) -> (D, bool), data: D)
      returns (data': D, ghost es: seq<(Key, V)>, ghost calls: seq<Call<V, D>>)
      requires Valid()
      ensures StrictlyIncreasing(es) && forall k, v :: (k, v) in es <==> k in Entries() && Entries()[k] == v
      ensures Calls(es, handle, data, calls)
      ensures data' == if calls == [] then data else calls[|calls| - 1].after
    {
      data', es, calls := data, [], [];
      if !u.Null? {
        var go;
        es := InOrder(Erase(shape.value));
        data', go, calls := Visit(shape.value, repr, handle, data);
        InOrderListsEntries(Erase(shape.value));
      }
    }

    method Visit<D>(ghost sh: Shape<V>, ghost slots: set<Map<V>>, handle: (D, Key, V) -> (D, bool), data: D)
      returns (data': D, go: bool, ghost calls: seq<Call<V, D>>)
      requires Slots(sh) <= slots && Matches(sh) && sh.slot == this
      ensures Calls(InOrder(Erase(sh)), handle, data, calls) && calls != []
      ensures data' == calls[|calls| - 1].after && go == calls[|calls| - 1].more
      decreases sh
    {
      if v.Some? {
        var r := handle(data, u.key, v.value);
        calls := [Call(data, u.key, v.value, r.0, r.1)];
        return r.0, r.1, calls;
      }
      ghost var more := [];
      data', go, calls := u.node.left.Visit(sh.left, slots, handle, data);
      ghost var first := calls;
      if go {
        data', go, more := u.node.right.Visit(sh.right, slots, handle, data');
      }
      calls := first + more;
      CallsAppend(InOrder(Erase(sh.left)), InOrder(Erase(sh.right)), handle, data, first, more);
    }

    // The slot whose subtree holds exactly the entries that extend the prefix. For an empty map
    // that is the map itself, and for an absent prefix a map that is empty.
    method Prefix(prefix: Key) returns (top: Map<V>, ghost sub: Option<Shape<V>>)
      requires Valid()
      ensures sub.None? <==> Extensions(Entries(), prefix) == map[]
      ensures sub.None? ==> top.u.Null? && if shape.None? then top == this else top.v.None?
      ensures sub.Some? ==>
        && sub.value.slot == top && Matches(sub.value) && Within(sub.value, shape.value)
        && WellFormed(Erase(sub.value))
        && Contents(Erase(sub.value)) == Extensions(Entries(), prefix)
    {
      if u.Null? {
        return this, None;
      }
      ghost var sh := shape.value;
      PrefixTopExact(Erase(sh), prefix);
      PrefixTopHolds(Erase(sh), prefix);
      var n;
      ghost var leaf, subtop;
      top, subtop, n, leaf := PrefixWalk(sh, prefix);
      if !(prefix <= n.u.key) {
        top := new Map<V>();
        return top, None;
      }
      sub := Some(subtop);
      MatchesInside(subtop, sh);
    }

    // Walks to find the top, but keeps going to reach an entry.
    method PrefixWalk(ghost sh: Shape<V>, prefix: Key)
      returns (top: Map<V>, ghost sub: Shape<V>, n: Map<V>, ghost leaf: Shape<V>)
      requires Matches(sh) && sh.slot == this && WellFormed(Erase(sh))
      ensures Within(sub, sh) && sub.slot == top && Erase(sub) == PrefixTop(Erase(sh), prefix)
      ensures leaf.Tip? && leaf.slot == n && Matches(leaf) && Erase(leaf) == Walk(Erase(sh), prefix)
    {
      top, n := this, this;
      sub, leaf := sh, sh;
      while n.v.None?
        invariant Within(sub, sh) && sub.slot == top && PrefixTop(Erase(sub), prefix) == PrefixTop(Erase(sh), prefix)
        invariant Within(leaf, sh) && leaf.slot == n && Matches(leaf) && WellFormed(Erase(leaf))
        invariant Walk(Erase(leaf), prefix) == Walk(Erase(sh), prefix)
        invariant sub == leaf || (sub.Branch? && sub.node.byteNum >= |prefix|)
        invariant sub != leaf && leaf.Branch? ==> leaf.node.byteNum >= |prefix|
        decreases leaf
      {
        var node := n.u.node;
        var inPrefix := node.byteNum < |prefix|;
        var direction := Direction(prefix, node.byteNum, node.bitNum);
        ghost var below := if direction then leaf.right else leaf.left;
        WithinTransitive(below, leaf, sh);
        n := node.Child(direction);
        leaf := below;
        if inPrefix {
          top, sub := n, leaf;
        }
      }
    }

    method Contains(prefix: Key) returns (found: bool)
      requires Valid()
      ensures found <==> exists k :: k in Entries() && prefix <= k
    {
      var top;
      ghost var sub;
      top, sub := Prefix(prefix);
      assert sub.Some? ==> !top.u.Null?;
      if k :| k in Entries() && prefix <= k {
        assert k in Extensions(Entries(), prefix);
      }
      found := !top.u.Null?;
      assert found ==> Extensions(Entries(), prefix) != map[];
    }

    // On a non-empty map: the entry of the key itself, else of its only extension, else nothing.
    // On an empty map: whatever value the slot still holds.
    method ClosestValue(prefix: Key) returns (r: Option<V>, err: Errno)
      requires Valid()
      ensures Entries() != map[] ==> r == UniqueMatch(Entries(), prefix)
      ensures Entries() == map[] ==> r == v
      ensures err == NoEntry <==> Extensions(Entries(), prefix) == map[]
    {
      err := NoError;
      r := Get(prefix);
      if r.Some? {
        assert prefix in Extensions(Entries(), prefix);
        return;
      }
      var m;
      ghost var sub;
      m, sub := Prefix(prefix);
      if shape.Some? {
        WalkEndsInLeaf(Erase(shape.value), prefix);
      }
      if sub.Some? {
        OnlyExtension(Erase(sub.value), Extensions(Entries(), prefix));
      }
      var none := m.IsNull();
      if none {
        err := NoEntry;
      }
      r := m.v;
    }

    method IsNull() returns (r: bool)
      ensures r <==> u.Null?
    {
      r := u.Null?;
    }

    method Clear()
      requires Valid()
      modifies this
      ensures Valid() && Entries() == map[] && v.None? && repr == old(repr)
    {
      u, v, shape := Null, None, None;
    }

    // Entries of src replace those of this map under the same key.
    method CopyFrom(src: Map<V>) returns (ok: bool)
      requires Valid() && src.Valid() && repr !! src.repr
      modifies repr
      ensures ok && Valid() && fresh(repr - old(repr))
      ensures Entries() == old(Entries()) + src.Entries()
      ensures src.Valid() && src.Entries() == old(src.Entries())
    {
      ok := true;
      if !src.u.Null? {
        ok := CopyTree(src, src.shape.value, src.repr);
      }
    }

    method CopyTree(n: Map<V>, ghost sh: Shape<V>, ghost slots: set<Map<V>>) returns (ok: bool)
      requires Valid() && Slots(sh) <= slots && repr !! slots && Matches(sh) && sh.slot == n && WellFormed(Erase(sh))
      modifies repr
      ensures ok && Valid() && fresh(repr - old(repr))
      ensures Entries() == old(Entries()) + Contents(Erase(sh))
      decreases sh
    {
      if n.v.None? {
        UnionAssociates(Entries(), Contents(Erase(sh.left)), Contents(Erase(sh.right)));
        ok := CopyTree(n.u.node.left, sh.left, slots);
        ok := CopyTree(n.u.node.right, sh.right, slots);
        return;
      }
      UnionOne(Entries(), n.u.key, n.v.value);
      ok := true;
      var added, _ := Put(n.u.key, n.v);
      if !added {
        var present := Get(n.u.key);
        if present != n.v {
          var _, _ := Delete(n.u.key);
          var err;
          ok, err := Put(n.u.key, n.v);
        }
      }
    }

    // The second half of map_put: grafts a new node at the slot that the search found.
    method InsertAt(ghost sh: Shape<V>, key: Key, value: V, byteNum: nat, bitNum: bv3)
      requires Matches(sh) && sh.slot == this && this in repr && Slots(sh) <= repr
      modifies repr
      ensures shape.Some? && shape.value.slot == this && Matches(shape.value)
      ensures old(repr) <= repr && Slots(shape.value) <= repr && fresh(repr - old(repr))
      ensures Erase(shape.value) == Insert(Erase(sh), key, value, byteNum, bitNum)
    {
      var n, sub := InsertionSlot(sh, key, value, byteNum, bitNum);
      ghost var sh', extra := Graft(n, sub, sh, repr, key, value, byteNum, bitNum);
      shape := Some(sh');
      repr := repr + extra;
    }

    // Not the closest slot, but the first one past the difference.
    method InsertionSlot(ghost sh: Shape<V>, key: Key, ghost value: V, byteNum: nat, bitNum: bv3)
      returns (n: Map<V>, ghost sub: Shape<V>)
      requires Matches(sh) && sh.slot == this
      ensures Within(sub, sh) && sub.slot == n && n in Slots(sh)
      ensures sub.Tip? || Before(byteNum, bitNum, sub.node.byteNum, sub.node.bitNum)
      ensures Insert(Erase(sh), key, value, byteNum, bitNum) ==
              PlugTrie(sh, n, Insert(Erase(sub), key, value, byteNum, bitNum))
    {
      MatchesDistinct(sh);
      n, sub := this, sh;
      while n.v.None?
        invariant Within(sub, sh) && sub.slot == n && Matches(sub)
        invariant Insert(Erase(sh), key, value, byteNum, bitNum) ==
                  PlugTrie(sh, n, Insert(Erase(sub), key, value, byteNum, bitNum))
        decreases sub
      {
        var node := n.u.node;
        if node.byteNum > byteNum {
          break;
        }
        if node.byteNum == byteNum && node.bitNum < bitNum {
          break;
        }
        var direction := Direction(key, node.byteNum, node.bitNum);
        ghost var below := if direction then sub.right else sub.left;
        PlugStep(sh, sub, direction, Insert(Erase(below), key, value, byteNum, bitNum));
        WithinTransitive(below, sub, sh);
        n := node.Child(direction);
        sub := below;
      }
      WithinSlots(sub, sh);
    }
  }

  // Puts a new node into slot n, with the old content of n and the new entry as its children.
  method Graft<V(==)>(n: Map<V>, ghost sub: Shape<V>, ghost sh: Shape<V>, ghost slots: set<Map<V>>,
                      key: Key, value: V, byteNum: nat, bitNum: bv3)
    returns (ghost sh': Shape<V>, ghost extra: set<Map<V>>)
    requires Slots(sh) <= slots && Matches(sh) && Within(sub, sh) && sub.slot == n
    modifies n`u, n`v
    ensures fresh(extra) && Slots(sh') <= Slots(sh) + extra
    ensures Matches(sh') && sh'.slot == sh.slot
    ensures Erase(sh') == PlugTrie(sh, n,
              if BitOf(key, byteNum, bitNum) then Fork(byteNum, bitNum, Erase(sub), Leaf(key, value))
              else Fork(byteNum, bitNum, Leaf(key, value), Erase(sub)))
  {
    MatchesAround(sh, n);
    MatchesDistinct(sh);
    MatchesInside(sub, sh);
    WithinSlots(sub, sh);
    assert ChildrenMatch(sub);
    var newDir := Bit(ByteAt(key, byteNum), bitNum);
    var moved := new Map<V>.Holding(n.u, n.v);
    var added := new Map<V>.Holding(Text(key), Some(value));
    var newn := new Node(byteNum, bitNum, if newDir then moved else added, if newDir then added else moved);
    n.SetInner(newn);
    extra := {moved, added};
    sh' := Grafted(sub, sh, newn, moved, added, key, value, newDir);
  }

  ghost predicate ChildrenMatch<V>(sub: Shape<V>)
    reads Slots(sub) - {sub.slot}
  {
    sub.Branch? ==>
      && sub.node.left == sub.left.slot && sub.node.right == sub.right.slot
      && sub.slot !in Slots(sub.left) && sub.slot !in Slots(sub.right) && Slots(sub.left) !! Slots(sub.right)
      && Matches(sub.left) && Matches(sub.right)
  }

  lemma Grafted<V>(sub: Shape<V>, sh: Shape<V>, newn: Node<V>, moved: Map<V>, added: Map<V>,
                       key: Key, value: V, newDir: bool) returns (sh': Shape<V>)
    requires DistinctSlots(sh) && Within(sub, sh) && Around(sh, sub.slot) && ChildrenMatch(sub)
    requires {moved, added} !! Slots(sh) && moved != added
    requires sub.slot.u == Inner(newn) && sub.slot.v.None?
    requires newn.left == (if newDir then moved else added) && newn.right == (if newDir then added else moved)
    requires added.u == Text(key) && added.v == Some(value)
    requires if sub.Tip? then moved.u == Text(sub.key) && moved.v == Some(sub.val)
             else moved.u == Inner(sub.node) && moved.v == None
    ensures Slots(sh') <= Slots(sh) + {moved, added}
    ensures Matches(sh') && sh'.slot == sh.slot
    ensures Erase(sh') == PlugTrie(sh, sub.slot,
              if newDir then Fork(newn.byteNum, newn.bitNum, Erase(sub), Leaf(key, value))
              else Fork(newn.byteNum, newn.bitNum, Leaf(key, value), Erase(sub)))
  {
    WithinSlots(sub, sh);
    var tip, rest := Tip(added, key, value), sub.(slot := moved);
    var new' := if newDir then Branch(sub.slot, newn, rest, tip) else Branch(sub.slot, newn, tip, rest);
    assert Matches(rest);
    sh' := Plug(sh, sub.slot, new');
    Fill(sh, sub, new', {moved, added});
    ErasePlug(sh, sub.slot, new');
  }

  // Copies the content of the sibling over the parent's slot, dropping the node between them.
  method RaiseSibling<V(==)>(parent: Map<V>, ghost psub: Shape<V>, ghost sh: Shape<V>, ghost slots: set<Map<V>>,
                        direction: bool)
    requires Slots(sh) <= slots && Matches(sh) && Within(psub, sh) && psub.slot == parent && psub.Branch?
    modifies parent`u, parent`v
    ensures var sh' := Plug(sh, parent, Raised(psub, direction));
      && Matches(sh') && sh'.slot == sh.slot && Slots(sh') <= Slots(sh)
      && Erase(sh') == PlugTrie(sh, parent, Erase(if direction then psub.left else psub.right))
  {
    MatchesAround(sh, parent);
    MatchesDistinct(sh);
    MatchesInside(psub, sh);
    WithinSlots(psub, sh);
    ghost var kept := if direction then psub.left else psub.right;
    assert ChildrenMatch(kept);
    var sibling := parent.u.node.Child(!direction);
    parent.Assign(sibling);
    assert Matches(Raised(psub, direction));
    Fill(sh, psub, Raised(psub, direction), {});
    ErasePlug(sh, parent, Raised(psub, direction));
  }

  datatype Op<V> = PutOp(key: Key, val: Option<V>) | DeleteOp(key: Key) | CopyOp | ClearOp

  // The plain finite map that a run of operations describes: present keys are refused unchanged,
  // copying overwrites.
  ghost function Replayed<V>(m: map<Key, V>, other: map<Key, V>, ops: seq<Op<V>>): map<Key, V> {
    if ops == [] then m
    else
      var before := Replayed(m, other, ops[..|ops| - 1]);
      match ops[|ops| - 1]
      case PutOp(k, v) => if v.Some? && k !in before then before[k := v.value] else before
      case DeleteOp(k) => before - {k}
      case CopyOp => before + other
      case ClearOp => map[]
  }

  method Replay<V(==)>(m: Map<V>, other: Map<V>, ops: seq<Op<V>>)
    requires m.Valid() && other.Valid() && m.repr !! other.repr
    modifies m.repr
    ensures m.Valid() && m.Entries() == Replayed(old(m.Entries()), old(other.Entries()), ops)
  {
    for i := 0 to |ops|
      invariant m.Valid() && other.Valid() && m.repr !! other.repr && fresh(m.repr - old(m.repr))
      invariant other.Entries() == old(other.Entries())
      invariant m.Entries() == Replayed(old(m.Entries()), old(other.Entries()), ops[..i])
    {
      assert ops[..i + 1][..i] == ops[..i];
      match ops[i]
      case PutOp(k, v) => var _, _ := m.Put(k, v);
      case DeleteOp(k) => var _, _ := m.Delete(k);
      case CopyOp => var _ := m.CopyFrom(other);
      case ClearOp => m.Clear();
    }
    assert ops[..|ops|] == ops;
  }

  // map_closest promises nothing for an absent prefix, but on a map emptied by map_delete it
  // answers with the value that was deleted.
  method ClosestOnEmptiedMap<V(==)>(key: Key, value: V, prefix: Key) returns (r: Option<V>, err: Errno)
    ensures r == Some(value) && err == NoEntry
  {
    var m := new Map<V>();
    var _, _ := m.Put(key, Some(value));
    var _, _ := m.Delete(key);
    r, err := m.ClosestValue(prefix);
  }
}
