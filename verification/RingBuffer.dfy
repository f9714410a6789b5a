/// The byte ring buffer between a stream and its reader, and the backpressure it puts on the stream.
module RingBuffer {
  import opened Arith

  // A stream's callbacks are attached: the buffer stops it when full and starts it when not.
  class Stream {
    var started: bool
    var eof: bool  // it came to its end, or to an error

    constructor ()
      ensures started && !eof
    {
      started, eof := true, false;
    }
  }

  function Min(a: nat, b: nat): nat {
    if a < b then a else b
  }

  // The sign that memcmp gives two byte strings of the same length.
  ghost function Compared(s: seq<bv8>, t: seq<bv8>): int
    requires |s| == |t|
  {
    if s == [] then 0
    else if s[0] != t[0] then (if s[0] < t[0] then -1 else 1)
    else Compared(s[1..], t[1..])
  }

  lemma {:induction false} ComparedSplit(s: seq<bv8>, t: seq<bv8>, n: nat)
    requires n <= |s| == |t|
    ensures Compared(s, t) ==
      if Compared(s[..n], t[..n]) != 0 then Compared(s[..n], t[..n]) else Compared(s[n..], t[n..])
  {
    if n > 0 {
      assert s[..n][1..] == s[1..][..n - 1] && t[..n][1..] == t[1..][..n - 1];
      assert s[n..] == s[1..][n - 1..] && t[n..] == t[1..][n - 1..];
      if s[0] == t[0] {
        ComparedSplit(s[1..], t[1..], n - 1);
      }
    } else {
      assert s[..0] == [] && s[0..] == s && t[0..] == t;
    }
  }

  lemma {:induction false} ComparedEqual(s: seq<bv8>, t: seq<bv8>)
    requires |s| == |t|
    ensures Compared(s, t) == 0 <==> s == t
  {
    if s != [] {
      assert s == [s[0]] + s[1..] && t == [t[0]] + t[1..];
      if s[0] == t[0] {
        ComparedEqual(s[1..], t[1..]);
      }
    }
  }

  method Memcmp(s: seq<bv8>, t: seq<bv8>) returns (r: int)
    requires |s| == |t|
    ensures r == Compared(s, t)
  {
    for i := 0 to |s|
      invariant Compared(s, t) == Compared(s[i..], t[i..])
    {
      if s[i] != t[i] {
        return if s[i] < t[i] then -1 else 1;
      }
      assert s[i..][1..] == s[i + 1..] && t[i..][1..] == t[i + 1..];
    }
    return 0;
  }

  // A position at or past the end, brought back to the start.
  function Wrap(p: nat, size: nat): nat {
    if p >= size then p - size else p
  }

  // n bytes from position r on, around the end.
  ghost function Window(d: seq<bv8>, r: nat, n: nat): (w: seq<bv8>)
    requires r < |d| && n <= |d|
    ensures |w| == n
  {
    seq(n, i requires 0 <= i < n => d[Wrap(r + i, |d|)])
  }

  lemma WindowAt(d: seq<bv8>, r: nat, n: nat, i: nat)
    requires r < |d| && i < n <= |d|
    ensures Window(d, r, n)[i] == d[Wrap(r + i, |d|)]
  {
  }

  lemma WindowDrop(d: seq<bv8>, r: nat, n: nat, count: nat)
    requires r < |d| && count <= n <= |d| && r + count <= |d|
    ensures Window(d, Wrap(r + count, |d|), n - count) == Window(d, r, n)[count..]
    ensures Window(d, r, n)[..count] == d[r..r + count]
  {
    var w, v := Window(d, r, n), Window(d, Wrap(r + count, |d|), n - count);
    forall i | 0 <= i < n - count ensures v[i] == w[count..][i] {
      WindowAt(d, Wrap(r + count, |d|), n - count, i);
      WindowAt(d, r, n, count + i);
    }
    forall i | 0 <= i < count ensures w[..count][i] == d[r..r + count][i] {
      WindowAt(d, r, n, i);
    }
  }

  lemma WindowAppend(d: seq<bv8>, r: nat, n: nat, count: nat)
    requires r < |d| && n + count <= |d| && Wrap(r + n, |d|) + count <= |d|
    ensures Window(d, r, n + count) == Window(d, r, n) + d[Wrap(r + n, |d|)..Wrap(r + n, |d|) + count]
  {
    var w, v := Window(d, r, n), Window(d, r, n + count);
    var e := w + d[Wrap(r + n, |d|)..Wrap(r + n, |d|) + count];
    forall i | 0 <= i < n + count ensures v[i] == e[i] {
      WindowAt(d, r, n + count, i);
      if i < n {
        WindowAt(d, r, n, i);
      }
    }
  }

  lemma WindowUntouched(d: seq<bv8>, d': seq<bv8>, r: nat, n: nat, count: nat)
    requires |d'| == |d| && r < |d| && n + count <= |d| && Wrap(r + n, |d|) + count <= |d|
    requires n < |d|
    requires forall i :: 0 <= i < |d| && !(Wrap(r + n, |d|) <= i < Wrap(r + n, |d|) + count) ==> d'[i] == d[i]
    ensures Window(d', r, n) == Window(d, r, n)
  {
    var w, v := Window(d, r, n), Window(d', r, n);
    forall i | 0 <= i < n ensures v[i] == w[i] {
      WindowAt(d, r, n, i);
      WindowAt(d', r, n, i);
    }
  }

  // The second chunk of a window that wraps lies at the start of the data.
  lemma WindowWrapped(d: seq<bv8>, r: nat, n: nat, count: nat)
    requires r < |d| && |d| - r <= count <= n <= |d|
    ensures Window(d, r, n)[..count][|d| - r..] == d[..count - (|d| - r)]
  {
    var w := Window(d, r, n)[..count][|d| - r..];
    forall i | 0 <= i < |w| ensures w[i] == d[..count - (|d| - r)][i] {
      WindowAt(d, r, n, |d| - r + i);
    }
  }

  class RBuffer {
    const data: array<bv8>
    const stream: Stream?
    var readPtr: nat
    var writePtr: nat
    var size: nat

    ghost predicate Valid()
      reads this
    {
      && 0 < data.Length
      && readPtr < data.Length && writePtr < data.Length && size <= data.Length
      && writePtr == Wrap(readPtr + size, data.Length)
    }

    // The bytes in the buffer, oldest first.
    ghost function Contents(): (s: seq<bv8>)
      requires Valid()
      reads this, data
      ensures |s| == size
    {
      Window(data[..], readPtr, size)
    }

    // Until its end the stream runs exactly while the buffer has room.
    ghost predicate Backpressure()
      reads this, stream
    {
      stream != null ==> (stream.started <==> !stream.eof && size < data.Length)
    }

    constructor (capacity: nat, stream: Stream?)
      modifies stream
      ensures Valid() && Contents() == [] && fresh(data)
      ensures data.Length == (if capacity == 0 then 0xffff else capacity) && this.stream == stream
      ensures Backpressure() && (stream != null ==> stream.started && !stream.eof)
    {
      var n := if capacity == 0 then 0xffff else capacity;
      data := new bv8[n];
      this.stream := stream;
      readPtr, writePtr, size := 0, 0, 0;
      new;
      if stream != null {
        stream.started, stream.eof := true, false;
      }
    }

    method Space() returns (n: nat)
      requires Valid()
      ensures n == data.Length - size
    {
      n := data.Length - size;
    }

    // The contiguous room at the write pointer.
    method WritePtr() returns (count: nat)
      requires Valid()
      ensures count == if size == data.Length then 0
                       else if writePtr >= readPtr then data.Length - writePtr else readPtr - writePtr
      ensures size < data.Length ==> 0 < count <= data.Length - size && writePtr + count <= data.Length
    {
      if size == data.Length {
        return 0;
      }
      count := if writePtr >= readPtr then data.Length - writePtr else readPtr - writePtr;
    }

    // The contiguous bytes at the read pointer.
    method ReadPtr() returns (count: nat)
      requires Valid()
      ensures count == if size == 0 then 0
                       else if readPtr < writePtr then writePtr - readPtr else data.Length - readPtr
      ensures size > 0 ==> 0 < count <= size && readPtr + count <= data.Length
    {
      if size == 0 {
        return 0;
      }
      count := if readPtr < writePtr then writePtr - readPtr else data.Length - readPtr;
    }

    // The bytes at the write pointer join the buffer.
    method Produced(count: nat)
      requires Valid() && count <= data.Length - size && writePtr + count <= data.Length
      modifies this`writePtr, this`size, stream
      ensures Valid() && readPtr == old(readPtr)
      ensures writePtr == Wrap(old(writePtr) + count, data.Length)
      ensures Contents() == old(Contents()) + data[old(writePtr)..old(writePtr) + count]
      ensures stream != null ==>
        stream.started == (old(stream.started) && size < data.Length) && stream.eof == old(stream.eof)
      ensures old(Backpressure()) ==> Backpressure()
    {
      hide Window;
      WindowAppend(data[..], readPtr, size, count);
      writePtr := writePtr + count;
      if writePtr >= data.Length {
        writePtr := writePtr - data.Length;
      }
      size := size + count;
      if stream != null && data.Length - size == 0 {
        stream.started := false;
      }
    }

    // A read that takes nothing from a full buffer starts the stream although the buffer is full, and any
    // read from a full buffer starts it even after its end.
    method Consumed(count: nat)
      requires Valid() && count <= size && readPtr + count <= data.Length
      modifies this`readPtr, this`size, stream
      ensures Valid() && Contents() == old(Contents())[count..]
      ensures writePtr == old(writePtr) && readPtr == Wrap(old(readPtr) + count, data.Length)
      ensures stream != null ==>
        stream.started == (old(stream.started) || old(size) == data.Length) && stream.eof == old(stream.eof)
      ensures old(Backpressure()) ==>
        (Backpressure() <==> stream == null || old(size) < data.Length || (count > 0 && !stream.eof))
    {
      hide Window;
      WindowDrop(data[..], readPtr, size, count);
      readPtr := readPtr + count;
      if readPtr >= data.Length {
        readPtr := readPtr - data.Length;
      }
      var wasFull := size == data.Length;
      size := size - count;
      if stream != null && wasFull {
        stream.started := true;
      }
    }

    // Appends the longest prefix of src that fits, in at most two chunks.
    method Write(src: seq<bv8>) returns (n: nat, ghost chunks: nat)
      requires Valid() && Backpressure()
      modifies this`writePtr, this`size, data, stream
      ensures Valid() && Backpressure() && readPtr == old(readPtr)
      ensures n == Min(|src|, data.Length - old(size)) && chunks <= 2
      ensures stream != null ==> stream.eof == old(stream.eof)
      ensures Contents() == old(Contents()) + src[..n]
    {
      hide Contents;
      n, chunks := 0, 0;
      var space := Space();
      while space > 0
        invariant Valid() && Backpressure() && readPtr == old(readPtr)
        invariant stream != null ==> stream.eof == old(stream.eof)
        invariant n <= |src| && size == old(size) + n && space == data.Length - size
        invariant Contents() == old(Contents()) + src[..n]
        invariant chunks == 0 ==> n == 0 && writePtr == old(writePtr)
        invariant 1 <= chunks && space > 0 ==> chunks == 1 && writePtr < readPtr
        invariant chunks <= 2 && (n == |src| ==> n == 0 && chunks == 0)
        decreases space, 2 - chunks
      {
        var count := CopyNext(src[n..]);
        assert src[n..][..count] == src[n..n + count];
        chunks := chunks + 1;
        n := n + count;
        assert src[..n] == src[..n - count] + src[n - count..n];
        if n == |src| {
          return;
        }
        space := Space();
      }
    }

    // One turn of the loop: as much of what is left as fits before the end of the storage.
    method CopyNext(left: seq<bv8>) returns (count: nat)
      requires Valid() && Backpressure() && size < data.Length
      modifies this`writePtr, this`size, data, stream
      ensures Valid() && Backpressure() && readPtr == old(readPtr)
      ensures stream != null ==> stream.eof == old(stream.eof)
      ensures count <= |left| && size == old(size) + count && Contents() == old(Contents()) + left[..count]
      ensures left != [] ==> count > 0
      ensures count < |left| && size < data.Length ==> old(writePtr) >= old(readPtr) && writePtr < readPtr
    {
      hide Contents;
      var wcnt := WritePtr();
      count := Min(|left|, wcnt);
      CopyIn(left[..count]);
    }

    // memcpy to the write pointer, then rbuffer_produced.
    method CopyIn(chunk: seq<bv8>)
      requires Valid() && Backpressure() && |chunk| <= data.Length - size
      requires size < data.Length && writePtr + |chunk| <= data.Length
      requires writePtr >= readPtr || writePtr + |chunk| <= readPtr
      modifies this`writePtr, this`size, data, stream
      ensures Valid() && Backpressure() && readPtr == old(readPtr)
      ensures Contents() == old(Contents()) + chunk
      ensures writePtr == Wrap(old(writePtr) + |chunk|, data.Length)
      ensures stream != null ==> stream.eof == old(stream.eof)
    {
      hide Window;
      ghost var was := data[..];
      forall i | 0 <= i < |chunk| {
        data[writePtr + i] := chunk[i];
      }
      WindowUntouched(was, data[..], readPtr, size, |chunk|);
      assert data[writePtr..writePtr + |chunk|] == chunk;
      Produced(|chunk|);
    }

    // Removes the longest available prefix, at most two chunks of it.
    method Read(want: nat) returns (dst: seq<bv8>, ghost chunks: nat)
      requires Valid() && Backpressure()
      modifies this`readPtr, this`size, stream
      ensures Valid() && dst == old(Contents())[..Min(want, old(size))] && chunks <= 2
      ensures Contents() == old(Contents())[Min(want, old(size))..] && writePtr == old(writePtr)
      ensures stream != null ==> stream.eof == old(stream.eof)
      ensures Backpressure() <==> stream == null || old(size) < data.Length || (want > 0 && !stream.eof)
    {
      hide Contents;
      dst, chunks := [], 0;
      while size > 0
        invariant Valid() && |dst| + size == old(size) && writePtr == old(writePtr)
        invariant dst == old(Contents())[..|dst|] && Contents() == old(Contents())[|dst|..]
        invariant |dst| <= want && (|dst| == want ==> chunks == 0)
        invariant stream != null ==> stream.eof == old(stream.eof)
        invariant Backpressure() <==> stream == null || chunks == 0 || old(size) < data.Length || !stream.eof
        invariant chunks > 0 ==> dst != [] && size < data.Length
        invariant chunks == 0 ==> dst == []
        invariant 1 <= chunks && size > 0 ==> chunks == 1 && readPtr < writePtr
        invariant chunks <= 2
        decreases size, 2 - chunks
      {
        var rcnt := ReadPtr();
        ghost var was := Contents();
        var chunk := CopyOut(Min(want - |dst|, rcnt));
        assert old(Contents())[..|dst|] + was[..|chunk|] == old(Contents())[..|dst| + |chunk|];
        dst := dst + chunk;
        chunks := chunks + 1;
        if |dst| == want {
          return;
        }
      }
    }

    // memcpy from the read pointer, then rbuffer_consumed.
    method CopyOut(count: nat) returns (chunk: seq<bv8>)
      requires Valid() && count <= size && readPtr + count <= data.Length
      modifies this`readPtr, this`size, stream
      ensures Valid() && chunk == old(Contents())[..count] && Contents() == old(Contents())[count..]
      ensures writePtr == old(writePtr) && readPtr == Wrap(old(readPtr) + count, data.Length)
      ensures stream != null ==>
        stream.started == (old(stream.started) || old(size) == data.Length) && stream.eof == old(stream.eof)
    {
      hide Window;
      WindowDrop(data[..], readPtr, size, count);
      chunk := data[readPtr..readPtr + count];
      Consumed(count);
    }

    // alloc_cb and read_cb of a running stream, for these bytes waiting: the system stores as many as fit into
    // the room that alloc_cb offers, and read_cb is told their number.
    method Receive(waiting: seq<bv8>) returns (n: nat)
      requires Valid() && Backpressure() && stream != null && stream.started
      modifies this`writePtr, this`size, data, stream
      ensures Valid() && Backpressure() && stream.eof == old(stream.eof)
      ensures n == Min(|waiting|, old(if writePtr >= readPtr then data.Length - writePtr else readPtr - writePtr))
      ensures (n == 0 <==> waiting == []) && Contents() == old(Contents()) + waiting[..n]
    {
      hide Contents;
      var room := WritePtr();
      n := Min(|waiting|, room);
      if n > 0 {
        CopyIn(waiting[..n]);
      } else {
        assert waiting[..0] == [];
      }
    }

    // read_cb at the end of a running stream, or at an error.
    method End()
      requires Valid() && Backpressure() && stream != null && stream.started
      modifies stream
      ensures Valid() && Backpressure() && stream.eof && !stream.started
    {
      stream.started := false;
      stream.eof := true;
    }

    method Get(index: nat) returns (c: bv8)
      requires Valid() && index < size
      ensures c == Contents()[index]
    {
      WindowAt(data[..], readPtr, size, index);
      var p := readPtr + index;
      if p >= data.Length {
        p := p - data.Length;
      }
      c := data[p];
    }

    // The sign of comparing str with the first bytes in the buffer, across the wrap.
    method Cmp(str: seq<bv8>) returns (r: int)
      requires Valid() && |str| <= size
      ensures r == Compared(str, Contents()[..|str|])
    {
      hide Window, Compared;
      var rcnt := ReadPtr();
      var n := Min(|str|, rcnt);
      ComparedSplit(str, Contents()[..|str|], n);
      WindowDrop(data[..], readPtr, size, n);
      assert Contents()[..|str|][..n] == Contents()[..n];
      ComparedEqual(str[n..], Contents()[..|str|][n..]);
      r := Memcmp(str[..n], data[readPtr..readPtr + n]);
      var remaining := size - rcnt;
      if r != 0 || |str| - n == 0 || remaining == 0 {
        return;
      }
      WindowWrapped(data[..], readPtr, size, |str|);
      r := Memcmp(str[n..], data[..|str| - n]);
    }

    // RBUFFER_EACH visits the bytes oldest first.
    method Each() returns (bytes: seq<bv8>)
      requires Valid()
      ensures bytes == Contents()
    {
      bytes := [];
      for i := 0 to size
        invariant bytes == Contents()[..i]
      {
        hide Contents;
        var c := Get(i);
        bytes := bytes + [c];
      }
    }

    // RBUFFER_EACH_REVERSE visits them newest first.
    method EachReverse() returns (bytes: seq<bv8>)
      requires Valid()
      ensures |bytes| == size && forall i :: 0 <= i < size ==> bytes[i] == Contents()[size - 1 - i]
    {
      hide Contents;
      bytes := [];
      for i := size downto 0
        invariant |bytes| == size - i
        invariant forall j :: 0 <= j < size - i ==> bytes[j] == Contents()[size - 1 - j]
      {
        var c := Get(i);
        bytes := bytes + [c];
      }
    }
  }

  datatype Op = WriteOp(bytes: seq<bv8>) | ReadOp(want: nat)

  // Over any run of writes and reads, the bytes read followed by the bytes still in the buffer
  // are exactly the bytes that were accepted, in order; and as long as every read asks for
  // something, the stream stands still exactly while the buffer is full.
  method Run(b: RBuffer, ops: seq<Op>) returns (accepted: seq<bv8>, taken: seq<bv8>)
    requires b.Valid() && b.Backpressure() && b.Contents() == [] && (b.stream != null ==> !b.stream.eof)
    requires forall i :: 0 <= i < |ops| && ops[i].ReadOp? ==> ops[i].want > 0
    modifies b, b.data, b.stream
    ensures b.Valid() && b.Backpressure()
    ensures accepted == taken + b.Contents()
  {
    hide Window;
    accepted, taken := [], [];
    for i := 0 to |ops|
      invariant b.Valid() && b.Backpressure() && accepted == taken + b.Contents()
      invariant b.stream != null ==> !b.stream.eof
    {
      match ops[i]
      case WriteOp(bytes) =>
        var n, _ := b.Write(bytes);
        accepted := accepted + bytes[..n];
      case ReadOp(want) =>
        var dst, _ := b.Read(want);
        taken := taken + dst;
    }
  }

  // What happens to a stream with its buffer: bytes are waiting to be read from the system, or none after
  // all, or its end is reached, and the program takes bytes out of the buffer.
  datatype Event = Waiting(bytes: seq<bv8>) | NoneAfterAll | AtEnd | Take(want: nat)

  // Over any run of a stream, until its end it stands still exactly while the buffer is full, and after its end
  // for good. The system reads only from a stream that runs.
  method RunStream(b: RBuffer, events: seq<Event>) returns (received: seq<bv8>, taken: seq<bv8>, ended: bool)
    requires b.Valid() && b.stream != null && b.Backpressure() && b.Contents() == [] && !b.stream.eof
    requires forall i :: 0 <= i < |events| && events[i].Take? ==> events[i].want > 0
    modifies b, b.data, b.stream
    ensures b.Valid() && received == taken + b.Contents() && ended == b.stream.eof
    ensures b.stream.started <==> !ended && b.size < b.data.Length
  {
    hide Window;
    received, taken, ended := [], [], false;
    for i := 0 to |events|
      invariant b.Valid() && b.Backpressure() && received == taken + b.Contents()
      invariant ended == b.stream.eof && (ended ==> b.size < b.data.Length)
    {
      match events[i]
      case Waiting(bytes) =>
        if b.stream.started {
          var n := b.Receive(bytes);
          received := received + bytes[..n];
        }
      case NoneAfterAll =>
      case AtEnd =>
        if b.stream.started {
          b.End();
          ended := true;
        }
      case Take(want) =>
        var dst, _ := b.Read(want);
        taken := taken + dst;
    }
  }

  // A read of no bytes from a full buffer: the stream runs again, although there is no room.
  method ZeroRead() returns (b: RBuffer)
    ensures b.Valid() && b.stream != null && b.stream.started && b.size == b.data.Length
  {
    var stream := new Stream();
    b := new RBuffer(1, stream);
    var n, _ := b.Write([0]);
    var dst, _ := b.Read(0);
  }
}
