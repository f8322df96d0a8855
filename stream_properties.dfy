/** What the MemoryStream operations promise when composed: when ensure-write
    compacts and grows, what a write appends, reading in chunks, the FIFO order of
    any sequence of writes and reads, seek bounds, and the seekable-mode write
    that loses bytes. */
module StreamProperties {
  import opened StreamSpec

  /** Compaction happens exactly in streaming mode with a non-zero read cursor;
      growth happens exactly when the free room plus the read cursor is short of
      the request (in both modes, since compaction turns the cursor into free
      room). */
  lemma EnsureWriteSteps(s: Stream, n: nat)
    requires Valid(s)
    ensures EnsureWrite(s, n).0.recycleLength != s.recycleLength <==> s.isStream && s.position > 0
    ensures EnsureWrite(s, n).0.capacity != s.capacity <==> Free(s) + s.position < n
  {
    var c := if s.isStream && s.position > 0 then Collect(s) else s;
    assert Free(c) + c.position == Free(s) + s.position;
    if Free(c) + c.position < n {
      GrownCapacityRoom(c.capacity, |c.written|, n);
      assert Resize(c, n).capacity - |c.written| >= n;
    }
  }

  /** After ensure-write, `n` more bytes fit exactly when the buffer is in
      streaming mode, already had the room, or had to grow. A seekable buffer
      whose read cursor makes up the shortfall is left short. */
  lemma EnsureWriteRoomIff(s: Stream, n: nat)
    requires Valid(s)
    ensures Free(EnsureWrite(s, n).0) >= n <==>
            (s.isStream || Free(s) >= n || Free(s) + s.position < n)
  {
    var c := if s.isStream && s.position > 0 then Collect(s) else s;
    assert Free(c) + c.position == Free(s) + s.position;
    assert s.isStream ==> c.position == 0;
  }

  /** When ensure-write leaves room (always in streaming mode), a write appends
      all of `buf` after the unread bytes. */
  lemma {:induction false} WriteAppends(s: Stream, buf: seq<bv8>)
    requires Valid(s)
    requires s.isStream || Free(s) >= |buf| || Free(s) + s.position < |buf|
    ensures Unread(Write(s, buf).0) == Unread(s) + buf
    ensures Write(s, buf).1 == |buf|
  {
    EnsureWriteRoomIff(s, |buf|);
    assert buf[..|buf|] == buf;
  }

  /** The seekable-mode shortfall: when the read cursor covers the missing room,
      ensure-write does not grow, did_write clamps the length to the capacity, and
      memory_stream_write reports all |buf| bytes written while only the first
      Free(s) of them are kept. */
  lemma {:induction false} SeekableWriteDropsBytes(s: Stream, buf: seq<bv8>)
    requires Valid(s) && !s.isStream
    requires Free(s) < |buf| <= Free(s) + s.position
    ensures Write(s, buf).1 == |buf|
    ensures Unread(Write(s, buf).0) == Unread(s) + buf[..Free(s)]
    ensures |Write(s, buf).0.written| == s.capacity
    ensures Available(Write(s, buf).0) < Available(s) + |buf|
  {
    EnsureWriteSteps(s, |buf|);
    assert EnsureWrite(s, |buf|).0 == s;
  }

  /** A concrete instance: a seekable buffer of capacity 4, full, with 2 bytes
      read; writing [5, 6] returns 2 but the unread bytes stay [3, 4]. */
  lemma SeekableWriteCounterexample()
    ensures var s := Stream([1, 2, 3, 4], 2, 4, 0, false, false);
            Write(s, [5, 6]).1 == 2 && Unread(Write(s, [5, 6]).0) == [3, 4]
  {
    var s := Stream([1, 2, 3, 4], 2, 4, 0, false, false);
    SeekableWriteDropsBytes(s, [5, 6]);
  }

  /** Reading in chunks of the given sizes: the final state and all bytes read. */
  function ReadChunks(s: Stream, sizes: seq<nat>): (res: (Stream, seq<bv8>))
    requires Valid(s)
    ensures Valid(res.0)
    decreases |sizes|
  {
    if sizes == [] then (s, [])
    else
      var (s1, first) := Read(s, sizes[0]);
      var (s2, rest) := ReadChunks(s1, sizes[1..]);
      (s2, first + rest)
  }

  function Sum(sizes: seq<nat>): nat
  {
    if sizes == [] then 0 else sizes[0] + Sum(sizes[1..])
  }

  /** Chunked reads return the unread bytes in order, min(total requested,
      available) of them, and change nothing but the read cursor. */
  lemma {:induction false} ReadChunksInOrder(s: Stream, sizes: seq<nat>)
    requires Valid(s)
    ensures var (r, out) := ReadChunks(s, sizes);
            out + Unread(r) == Unread(s) &&
            |out| == Min(Sum(sizes), Available(s)) &&
            r == s.(position := s.position + |out|)
    decreases |sizes|
  {
    if sizes != [] {
      var (s1, first) := Read(s, sizes[0]);
      ReadChunksInOrder(s1, sizes[1..]);
      var (s2, rest) := ReadChunks(s1, sizes[1..]);
      assert first + rest + Unread(s2) == first + (rest + Unread(s2));
    }
  }

  /** Reading at least `available` bytes in any chunking drains exactly the
      unread bytes. */
  lemma ReadChunksDrain(s: Stream, sizes: seq<nat>)
    requires Valid(s) && Sum(sizes) >= Available(s)
    ensures ReadChunks(s, sizes).1 == Unread(s)
    ensures Available(ReadChunks(s, sizes).0) == 0
  {
    ReadChunksInOrder(s, sizes);
  }

  /** Writing `buf` and then reading in chunks that cover the unread bytes and
      `buf` returns the old unread bytes followed by `buf`, when ensure-write
      leaves room. */
  lemma WriteThenReadRoundTrip(s: Stream, buf: seq<bv8>, sizes: seq<nat>)
    requires Valid(s)
    requires s.isStream || Free(s) >= |buf| || Free(s) + s.position < |buf|
    requires Sum(sizes) >= Available(s) + |buf|
    ensures ReadChunks(Write(s, buf).0, sizes).1 == Unread(s) + buf
  {
    WriteAppends(s, buf);
    ReadChunksDrain(Write(s, buf).0, sizes);
  }

  /** A producer or consumer step. */
  datatype Op = WriteOp(bytes: seq<bv8>) | ReadOp(size: nat)

  /** All bytes the writes in `ops` hand over, in order. */
  function Pushed(ops: seq<Op>): seq<bv8>
  {
    if ops == [] then []
    else (if ops[0].WriteOp? then ops[0].bytes else []) + Pushed(ops[1..])
  }

  /** Apply `ops` in order, with memory_stream_write (or its corrected form when
      `growing`); returns the final state and the concatenation of all reads. */
  function Run(s: Stream, ops: seq<Op>, growing: bool): (res: (Stream, seq<bv8>))
    requires Valid(s)
    ensures Valid(res.0) && res.0.isStream == s.isStream
    ensures res.0.capacity >= s.capacity && res.0.recycleLength >= s.recycleLength
    ensures !s.isStream ==> res.0.recycleLength == s.recycleLength
    ensures !s.isStream ==> s.written <= res.0.written
    decreases |ops|
  {
    if ops == [] then (s, [])
    else
      match ops[0]
      case WriteOp(bytes) =>
        var s1 := if growing then WriteGrowing(s, bytes).0 else Write(s, bytes).0;
        Run(s1, ops[1..], growing)
      case ReadOp(size) =>
        var (s1, first) := Read(s, size);
        var (s2, rest) := Run(s1, ops[1..], growing);
        (s2, first + rest)
  }

  /** In streaming mode, any interleaving of writes and reads is FIFO: what was
      read, followed by what is still unread, is what was unread at the start
      followed by every byte written, in order. */
  lemma {:induction false} StreamingRunIsFifo(s: Stream, ops: seq<Op>)
    requires Valid(s) && s.isStream
    ensures var (r, out) := Run(s, ops, false);
            out + Unread(r) == Unread(s) + Pushed(ops)
    decreases |ops|
  {
    if ops != [] {
      match ops[0]
      case WriteOp(bytes) =>
        var s1 := Write(s, bytes).0;
        WriteAppends(s, bytes);
        StreamingRunIsFifo(s1, ops[1..]);
      case ReadOp(size) =>
        var (s1, first) := Read(s, size);
        StreamingRunIsFifo(s1, ops[1..]);
        var (s2, rest) := Run(s1, ops[1..], false);
        assert first + rest + Unread(s2) == first + (rest + Unread(s2));
    }
  }

  /** With the corrected growth check the same FIFO property holds in both modes. */
  lemma {:induction false} GrowingRunIsFifo(s: Stream, ops: seq<Op>)
    requires Valid(s)
    ensures var (r, out) := Run(s, ops, true);
            out + Unread(r) == Unread(s) + Pushed(ops)
    decreases |ops|
  {
    if ops != [] {
      match ops[0]
      case WriteOp(bytes) =>
        var s1 := WriteGrowing(s, bytes).0;
        GrowingRunIsFifo(s1, ops[1..]);
      case ReadOp(size) =>
        var (s1, first) := Read(s, size);
        GrowingRunIsFifo(s1, ops[1..]);
        var (s2, rest) := Run(s1, ops[1..], true);
        assert first + rest + Unread(s2) == first + (rest + Unread(s2));
    }
  }

  /** A fresh buffer of capacity 100 given 250 bytes returns them as 100, 100
      and 50 bytes to three reads of 100. */
  lemma GrowThenReadThreeChunks(buf: seq<bv8>, isStream: bool)
    requires |buf| == 250
    ensures var s := Write(Create(100, isStream), buf).0;
            var (s1, b1) := Read(s, 100);
            var (s2, b2) := Read(s1, 100);
            var (s3, b3) := Read(s2, 100);
            |b1| == 100 && |b2| == 100 && |b3| == 50 && b1 + b2 + b3 == buf
  {
    var c := Create(100, isStream);
    WriteAppends(c, buf);
    var s := Write(c, buf).0;
    assert Unread(s) == buf;
    var (s1, b1) := Read(s, 100);
    assert |b1| == 100 && b1 + Unread(s1) == buf;
    var (s2, b2) := Read(s1, 100);
    assert |b2| == 100 && b2 + Unread(s2) == Unread(s1);
    var (s3, b3) := Read(s2, 100);
    assert |b3| == 50 && b3 + Unread(s3) == Unread(s2) && Unread(s3) == [];
    assert b1 + b2 + b3 == b1 + (b2 + (b3 + Unread(s3)));
  }

  /** In a seekable buffer holding 1024 written bytes, seeking to 512 and
      reading 100 returns bytes [512, 612) of what was written. */
  lemma SeekThenRead(buf: seq<bv8>, capacity: nat)
    requires |buf| == 1024
    ensures var s := Write(Create(capacity, false), buf).0;
            var (t, ret) := Seek(s, 512, SEEK_SET);
            ret == 512 && Read(t, 100).1 == buf[512..612]
  {
    var c := Create(capacity, false);
    WriteAppends(c, buf);
  }
}
