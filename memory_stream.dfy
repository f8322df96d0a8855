/** The MemoryStream object: a byte region `data` of `capacity` bytes, a write
    cursor `length`, a read cursor `position`, the count of bytes compaction has
    discarded, the streaming-mode flag fixed at creation and the end-of-data flag.
    Every operation updates these fields and the region in place; each method is
    proved to follow the matching function of StreamSpec on the abstract value
    Abs(). Collect, Resize, EnsureWrite, EnsureWriteGrowing, Read and
    CopyAtWriteOffset also state what happens to the bytes of the region beyond
    the written ones; DidWrite, CopyAndCommit, Write and WriteCallback state only
    the written bytes. */
module MemoryStreams {
  import StreamSpec
  import StreamProperties

  class MemoryStream {
    var data: array<bv8>
    var position: nat
    var length: nat
    var capacity: nat
    var recycleLength: nat
    const isStream: bool
    var isDone: bool

    /** The cursor invariant: position <= length <= capacity == |data|. */
    ghost predicate Valid()
      reads this
    {
      capacity == data.Length && position <= length <= capacity
    }

    /** The buffer as a value: the written bytes, cursors, counters and flags. */
    ghost function Abs(): (s: StreamSpec.Stream)
      reads this, data
      requires Valid()
      ensures StreamSpec.Valid(s)
    {
      StreamSpec.Stream(data[..length], position, capacity, recycleLength, isStream, isDone)
    }

    /** memory_stream_create, with the allocation always succeeding. */
    constructor (capacity: nat, isStream: bool)
      ensures Valid() && fresh(data)
      ensures Abs() == StreamSpec.Create(capacity, isStream)
    {
      data := new bv8[capacity];
      this.capacity := capacity;
      this.isStream := isStream;
      recycleLength := 0;
      length := 0;
      position := 0;
      isDone := false;
    }

    /** memory_stream_get_free: bytes that fit after the written ones. */
    function Free(): (n: nat)
      reads this
      requires Valid()
      ensures length + n == data.Length
    {
      capacity - length
    }

    /** memory_stream_get_available: the number of unread bytes. */
    function Available(): (n: nat)
      reads this, data
      requires Valid()
      ensures n == |StreamSpec.Unread(Abs())|
    {
      length - position
    }

    /** memory_stream_get_read_position, as an offset into `data`: where the
        unread bytes start. */
    function ReadPosition(): (off: nat)
      reads this, data
      requires Valid()
      ensures off <= length && data[off..length] == StreamSpec.Unread(Abs())
    {
      position
    }

    /** memory_stream_get_write_position, as an offset into `data`: just past the
        written bytes, at the start of the free room. */
    function WritePosition(): (off: nat)
      reads this, data
      requires Valid()
      ensures off == |Abs().written| && off + Free() == data.Length
    {
      length
    }

    /** memory_stream_is_done: record the producer's end-of-data flag. */
    method SetDone(isDone: bool)
      requires Valid()
      modifies this`isDone
      ensures Valid()
      ensures Abs() == old(Abs()).(isDone := isDone)
    {
      this.isDone := isDone;
    }

    /** memory_stream_collect: memmove the unread bytes to offset 0. The rest of
        the region keeps its old bytes. */
    method Collect()
      requires Valid()
      modifies this`length, this`position, this`recycleLength, data
      ensures Valid() && data == old(data)
      ensures Abs() == StreamSpec.Collect(old(Abs()))
      ensures data[..] == old(data[position..length]) + old(data[length - position..])
    {
      var pos, size := position, length - position;
      var i := 0;
      while i < size
        modifies data
        invariant 0 <= i <= size
        invariant forall k :: 0 <= k < i ==> data[k] == old(data[pos + k])
        invariant forall k :: i <= k < data.Length ==> data[k] == old(data[k])
      {
        data[i] := data[pos + i];
        i := i + 1;
      }
      ghost var moved := old(data[position..length]) + old(data[length - position..]);
      assert data[..] == moved by {
        forall k | 0 <= k < data.Length ensures data[k] == moved[k] { }
      }
      length := length - position;
      recycleLength := recycleLength + position;
      position := 0;
    }

    /** memory_stream_resize: reallocate to the grown capacity, keeping every old
        byte of the region. */
    method Resize(size: nat)
      requires Valid()
      modifies this`data, this`capacity
      ensures Valid() && fresh(data)
      ensures Abs() == StreamSpec.Resize(old(Abs()), size)
      ensures data[..old(capacity)] == old(data[..])
    {
      var sz := StreamSpec.Max(capacity * 2, StreamSpec.CeilDiv(size, StreamSpec.MEMORY_PAGE) * StreamSpec.MEMORY_PAGE + length);
      var old_data, cap := data, capacity;
      var grown := new bv8[sz];
      var i := 0;
      while i < cap
        invariant 0 <= i <= cap
        invariant forall k :: 0 <= k < i ==> grown[k] == old_data[k]
      {
        grown[i] := old_data[i];
        i := i + 1;
      }
      assert grown[..cap] == old_data[..];
      assert grown[..length] == old_data[..length];
      data := grown;
      capacity := sz;
    }

    /** memory_stream_ensure_write: compact in streaming mode, grow if
        `free + position` is short of `writeLength`, and return the write offset. */
    method EnsureWrite(writeLength: nat) returns (offset: nat)
      requires Valid()
      modifies this, data
      ensures Valid()
      ensures (Abs(), offset) == StreamSpec.EnsureWrite(old(Abs()), writeLength)
      ensures data == old(data) || fresh(data)
      ensures data[..old(capacity)] ==
              old(if isStream && position > 0 then data[position..length] + data[length - position..]
                  else data[..])
    {
      if isStream && position > 0 {
        Collect();
      }
      if Free() + position < writeLength {
        Resize(writeLength);
      }
      offset := length;
    }

    /** ensure-write with the growth test the source evidently intends: grow
        whenever `free` itself is short of `writeLength`. */
    method EnsureWriteGrowing(writeLength: nat) returns (offset: nat)
      requires Valid()
      modifies this, data
      ensures Valid()
      ensures (Abs(), offset) == StreamSpec.EnsureWriteGrowing(old(Abs()), writeLength)
      ensures data == old(data) || fresh(data)
      ensures data[..old(capacity)] ==
              old(if isStream && position > 0 then data[position..length] + data[length - position..]
                  else data[..])
    {
      if isStream && position > 0 {
        Collect();
      }
      if Free() < writeLength {
        Resize(writeLength);
      }
      offset := length;
    }

    /** memory_stream_read: memcpy min(available, bufSize) bytes from the read
        cursor into `buf` and advance the cursor past them. */
    method Read(buf: array<bv8>, bufSize: nat) returns (n: nat)
      requires Valid() && buf != data && bufSize <= buf.Length
      modifies this`position, buf
      ensures Valid() && n <= bufSize
      ensures (Abs(), buf[..n]) == StreamSpec.Read(old(Abs()), bufSize)
      ensures buf[n..] == old(buf[n..])
    {
      var pos := position;
      n := StreamSpec.Min(length - pos, bufSize);
      var i := 0;
      while i < n
        modifies buf
        invariant 0 <= i <= n
        invariant forall k :: 0 <= k < i ==> buf[k] == data[pos + k]
        invariant forall k :: i <= k < buf.Length ==> buf[k] == old(buf[k])
      {
        buf[i] := data[pos + i];
        i := i + 1;
      }
      assert data[..length] == old(data[..length]);
      assert buf[..n] == data[..length][pos..pos + n];
      position := position + n;
    }

    /** memory_stream_did_write: commit `writeLength` bytes placed at the write
        offset, clamping the length to the capacity. */
    method DidWrite(writeLength: nat)
      requires Valid()
      modifies this`length
      ensures Valid()
      ensures Abs() == StreamSpec.DidWrite(old(Abs()),
                         old(data[length..StreamSpec.Min(capacity, length + writeLength)]))
    {
      ghost var filled := data[length..StreamSpec.Min(capacity, length + writeLength)];
      length := StreamSpec.Min(capacity, length + writeLength);
      assert data[..length] == old(data[..length]) + filled;
    }

    /** The memcpy at the write offset: the bytes of `bytes` that land inside the
        region are stored there; the rest of the region is untouched. */
    method CopyAtWriteOffset(bytes: seq<bv8>)
      requires Valid()
      modifies data
      ensures Valid()
      ensures var k := StreamSpec.Min(capacity - length, |bytes|);
              data[..] == old(data[..length]) + bytes[..k] + old(data[length + k..])
    {
      var len := length;
      var k := StreamSpec.Min(capacity - len, |bytes|);
      var i := 0;
      while i < k
        modifies data
        invariant 0 <= i <= k
        invariant forall j :: 0 <= j < len ==> data[j] == old(data[j])
        invariant forall j :: 0 <= j < i ==> data[len + j] == bytes[j]
        invariant forall j :: len + i <= j < data.Length ==> data[j] == old(data[j])
      {
        data[len + i] := bytes[i];
        i := i + 1;
      }
      ghost var expected := old(data[..length]) + bytes[..k] + old(data[length + k..]);
      assert data[..] == expected by {
        forall j | 0 <= j < data.Length ensures data[j] == expected[j] { }
      }
    }

    /** Commit the bytes just copied at the write offset. */
    method CopyAndCommit(bytes: seq<bv8>)
      requires Valid()
      modifies this`length, data
      ensures Valid()
      ensures Abs() == StreamSpec.DidWrite(old(Abs()), bytes)
    {
      CopyAtWriteOffset(bytes);
      ghost var k := StreamSpec.Min(capacity - length, |bytes|);
      assert data[..length] == old(data[..length]);
      assert data[length..StreamSpec.Min(capacity, length + |bytes|)] == bytes[..k];
      DidWrite(|bytes|);
    }

    /** memory_stream_write: ensure-write, copy `buf` to the write offset, commit
        |buf| bytes, return |buf|. */
    method Write(buf: seq<bv8>) returns (n: nat)
      requires Valid()
      modifies this, data
      ensures Valid()
      ensures (Abs(), n) == StreamSpec.Write(old(Abs()), buf)
      ensures data == old(data) || fresh(data)
    {
      var _ := EnsureWrite(|buf|);
      CopyAndCommit(buf);
      n := |buf|;
    }

    /** memory_stream_write_callback: ensure-write, let the callback fill the
        `bufSize` reserved bytes (with `filled`), commit them, return `bufSize`. */
    method WriteCallback(bufSize: nat, filled: seq<bv8>) returns (n: nat)
      requires Valid() && |filled| == bufSize
      modifies this, data
      ensures Valid()
      ensures (Abs(), n) == StreamSpec.Write(old(Abs()), filled)
      ensures data == old(data) || fresh(data)
    {
      var _ := EnsureWrite(bufSize);
      CopyAndCommit(filled);
      n := bufSize;
    }

    /** memory_stream_seek: move the read cursor to the target `whence` and
        `offset` name if it lies in [0, length]; otherwise return -1. */
    method Seek(offset: int, whence: int) returns (r: int)
      requires Valid()
      modifies this`position
      ensures Valid()
      ensures (Abs(), r) == StreamSpec.Seek(old(Abs()), offset, whence)
    {
      r := -1;
      var pos := -1;
      if whence == StreamSpec.SEEK_SET {
        pos := offset;
      } else if whence == StreamSpec.SEEK_CUR {
        pos := position + offset;
      } else if whence == StreamSpec.SEEK_END {
        pos := length + offset;
      }
      if 0 <= pos <= length {
        position := pos;
        r := pos;
      }
    }
  }

  /** A producer hands `bytes` to a drained streaming buffer and a consumer reads
      them back into an array it already holds: it gets exactly `bytes`. */
  method WriteThenReadBack(m: MemoryStream, bytes: seq<bv8>, dst: array<bv8>) returns (n: nat)
    requires m.Valid() && m.isStream && m.position == m.length
    requires dst != m.data && |bytes| <= dst.Length
    modifies m, m.data, dst
    ensures n == |bytes| && dst[..n] == bytes
  {
    ghost var s := m.Abs();
    var _ := m.Write(bytes);
    StreamProperties.WriteAppends(s, bytes);
    assert StreamSpec.Unread(m.Abs()) == bytes;
    n := m.Read(dst, |bytes|);
  }
}
