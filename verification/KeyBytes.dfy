/// Keys of the crit-bit map: NUL-terminated strings of bytes, read one bit at a time.
///
/// A bit position is a byte number together with a bit number; the map visits the bits of a byte
/// from the most significant (7) down to the least (0), so a larger bit number comes first.
module KeyBytes {
  type Char = c: bv8 | c != 0 witness 1
  type Key = seq<Char>

  // A key is followed by its terminator, and bits past the terminator read as zero.
  function ByteAt(k: Key, i: nat): bv8 {
    if i < |k| then k[i] else 0
  }

  predicate Bit(c: bv8, b: bv3) {
    (c >> (b as bv8)) & 1 == 1
  }

  predicate BitOf(k: Key, byteNum: nat, bitNum: bv3) {
    Bit(ByteAt(k, byteNum), bitNum)
  }

  predicate Before(byte1: nat, bit1: bv3, byte2: nat, bit2: bv3) {
    byte1 < byte2 || (byte1 == byte2 && bit1 > bit2)
  }

  // The bits of a key before the given position, the ones of the last byte shifted down.
  ghost function BitsBefore(x: Key, byteNum: nat, bitNum: bv3): seq<bv8> {
    seq(byteNum, i requires 0 <= i => ByteAt(x, i)) + [(ByteAt(x, byteNum) >> (bitNum as bv8)) >> 1]
  }

  // x and y have the same bits at every position before the given one.
  ghost predicate AgreeBefore(x: Key, y: Key, byteNum: nat, bitNum: bv3) {
    BitsBefore(x, byteNum, bitNum) == BitsBefore(y, byteNum, bitNum)
  }

  // The given position is the first one where x and y differ.
  ghost predicate FirstDifference(x: Key, y: Key, byteNum: nat, bitNum: bv3) {
    AgreeBefore(x, y, byteNum, bitNum) && BitOf(x, byteNum, bitNum) != BitOf(y, byteNum, bitNum)
  }

  ghost predicate PrecedesAt(x: Key, y: Key, i: nat) {
    ByteAt(x, i) < ByteAt(y, i) && forall h: nat :: h < i ==> ByteAt(x, h) == ByteAt(y, h)
  }

  // strcmp order: bytes compare as unsigned numbers and the terminator comes before every byte.
  ghost predicate Precedes(x: Key, y: Key) {
    exists i: nat :: PrecedesAt(x, y, i)
  }

  lemma PrecedesTransitive(x: Key, y: Key, z: Key)
    requires Precedes(x, y) && Precedes(y, z)
    ensures Precedes(x, z)
  {
    var i: nat :| PrecedesAt(x, y, i);
    var j: nat :| PrecedesAt(y, z, j);
    assert PrecedesAt(x, z, if i < j then i else j);
  }

  lemma AgreementIsBytewise(x: Key, y: Key, byteNum: nat, bitNum: bv3)
    ensures AgreeBefore(x, y, byteNum, bitNum) <==>
      && (forall i: nat :: i < byteNum ==> ByteAt(x, i) == ByteAt(y, i))
      && (forall j: bv3 :: j > bitNum ==> Bit(ByteAt(x, byteNum), j) == Bit(ByteAt(y, byteNum), j))
  {
    var p, q := BitsBefore(x, byteNum, bitNum), BitsBefore(y, byteNum, bitNum);
    if p == q {
      forall i: nat | i < byteNum ensures ByteAt(x, i) == ByteAt(y, i) {
        assert p[i] == q[i];
      }
      assert p[byteNum] == q[byteNum];
      SameHighBits(ByteAt(x, byteNum), ByteAt(y, byteNum), bitNum);
    }
    if (forall i: nat :: i < byteNum ==> ByteAt(x, i) == ByteAt(y, i))
      && (forall j: bv3 :: j > bitNum ==> Bit(ByteAt(x, byteNum), j) == Bit(ByteAt(y, byteNum), j)) {
      SameHighBits(ByteAt(x, byteNum), ByteAt(y, byteNum), bitNum);
      assert p == q;
    }
  }

  lemma SameHighBits(x: bv8, y: bv8, b: bv3)
    ensures (x >> (b as bv8)) >> 1 == (y >> (b as bv8)) >> 1 <==> forall j: bv3 :: j > b ==> Bit(x, j) == Bit(y, j)
  {
    if forall j: bv3 :: j > b ==> Bit(x, j) == Bit(y, j) {
      assert 7 > b ==> Bit(x, 7) == Bit(y, 7);
      assert 6 > b ==> Bit(x, 6) == Bit(y, 6);
      assert 5 > b ==> Bit(x, 5) == Bit(y, 5);
      assert 4 > b ==> Bit(x, 4) == Bit(y, 4);
      assert 3 > b ==> Bit(x, 3) == Bit(y, 3);
      assert 2 > b ==> Bit(x, 2) == Bit(y, 2);
      assert 1 > b ==> Bit(x, 1) == Bit(y, 1);
    }
  }

  // Agreement up to a later position covers the bits at every earlier position.
  lemma AgreeEarlier(x: Key, y: Key, byte1: nat, bit1: bv3, byte2: nat, bit2: bv3)
    requires AgreeBefore(x, y, byte2, bit2) && Before(byte1, bit1, byte2, bit2)
    ensures AgreeBefore(x, y, byte1, bit1) && BitOf(x, byte1, bit1) == BitOf(y, byte1, bit1)
  {
    AgreementIsBytewise(x, y, byte1, bit1);
    AgreementIsBytewise(x, y, byte2, bit2);
  }

  // Equal bytes and equal terminators make equal keys: a key holds no NUL.
  lemma EqualBytes(x: Key, y: Key)
    requires forall i: nat :: ByteAt(x, i) == ByteAt(y, i)
    ensures x == y
  {
    var n := if |x| < |y| then |x| else |y|;
    assert ByteAt(x, n) == ByteAt(y, n);
    forall i | 0 <= i < n ensures x[i] == y[i] {
      assert ByteAt(x, i) == ByteAt(y, i);
    }
  }

  lemma OrderByFirstDifference(x: Key, y: Key, byteNum: nat, bitNum: bv3)
    requires AgreeBefore(x, y, byteNum, bitNum)
    requires !BitOf(x, byteNum, bitNum) && BitOf(y, byteNum, bitNum)
    ensures Precedes(x, y)
  {
    AgreementIsBytewise(x, y, byteNum, bitNum);
    SameHighBits(ByteAt(x, byteNum), ByteAt(y, byteNum), bitNum);
    assert PrecedesAt(x, y, byteNum);
  }

  lemma TopBitExists(x: bv8, y: bv8) returns (b: bv3)
    requires x != y
    ensures Bit(x, b) != Bit(y, b) && forall j: bv3 :: j > b ==> Bit(x, j) == Bit(y, j)
  {
    b := if Bit(x, 7) != Bit(y, 7) then 7 else if Bit(x, 6) != Bit(y, 6) then 6
         else if Bit(x, 5) != Bit(y, 5) then 5 else if Bit(x, 4) != Bit(y, 4) then 4
         else if Bit(x, 3) != Bit(y, 3) then 3 else if Bit(x, 2) != Bit(y, 2) then 2
         else if Bit(x, 1) != Bit(y, 1) then 1 else 0;
  }

  lemma {:induction false} FirstByteExists(x: Key, y: Key, from: nat) returns (i: nat)
    requires x != y && forall h: nat :: h < from ==> ByteAt(x, h) == ByteAt(y, h)
    ensures ByteAt(x, i) != ByteAt(y, i) && forall h: nat :: h < i ==> ByteAt(x, h) == ByteAt(y, h)
    decreases |x| + |y| - from
  {
    if ByteAt(x, from) != ByteAt(y, from) {
      i := from;
    } else {
      if from >= |x| + |y| {
        forall h: nat ensures ByteAt(x, h) == ByteAt(y, h) {
        }
        EqualBytes(x, y);
      }
      i := FirstByteExists(x, y, from + 1);
    }
  }

  // Different keys have a first position where they differ.
  lemma FirstDifferenceExists(x: Key, y: Key) returns (byteNum: nat, bitNum: bv3)
    requires x != y
    ensures FirstDifference(x, y, byteNum, bitNum)
  {
    byteNum := FirstByteExists(x, y, 0);
    bitNum := TopBitExists(ByteAt(x, byteNum), ByteAt(y, byteNum));
    AgreementIsBytewise(x, y, byteNum, bitNum);
  }

  // The loop that shifts the difference of two bytes right until nothing is left (map.c).
  method TopDifferingBit(x: bv8, y: bv8) returns (bitNum: bv3)
    requires x != y
    ensures Bit(x, bitNum) != Bit(y, bitNum)
    ensures forall j: bv3 :: j > bitNum ==> Bit(x, j) == Bit(y, j)
  {
    var diff := x ^ y;
    bitNum := 0;
    while true
      invariant diff == (x ^ y) >> (bitNum as bv8) && diff != 0
      decreases 7 - bitNum
    {
      diff := diff >> 1;
      if diff == 0 {
        break;
      }
      bitNum := bitNum + 1;
    }
  }

  // The byte-by-byte comparison loop of map_put and of strcmp: either the keys are equal,
  // or byteNum is the first byte (terminators included) where they differ.
  method FirstDifferingByte(x: Key, y: Key) returns (same: bool, byteNum: nat)
    ensures same <==> x == y
    ensures !same ==> ByteAt(x, byteNum) != ByteAt(y, byteNum)
    ensures !same ==> forall i: nat :: i < byteNum ==> ByteAt(x, i) == ByteAt(y, i)
  {
    byteNum := 0;
    while ByteAt(x, byteNum) == ByteAt(y, byteNum)
      invariant byteNum <= |x| && byteNum <= |y|
      invariant forall i: nat :: i < byteNum ==> ByteAt(x, i) == ByteAt(y, i)
      decreases |y| - byteNum
    {
      if ByteAt(y, byteNum) == 0 {
        EqualBytes(x, y);
        return true, byteNum;
      }
      byteNum := byteNum + 1;
    }
    same := false;
  }
}
