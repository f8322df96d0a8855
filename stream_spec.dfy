/** Value model of the MemoryStream growable byte buffer.
    A `Stream` is the buffer as a reader or writer can observe it: the bytes held
    in `data[0 .. length)`, the read cursor, the allocated capacity, the count of
    bytes dropped by compaction and the two mode flags. The class in
    memory_stream.dfy is proved to follow these functions step by step. */
module StreamSpec {

  /** Growth granularity of the buffer (64 KiB). */
  const MEMORY_PAGE: nat := 64 * 1024

  /** The `whence` codes of ISO C `fseek` (C11 section 7.21.9.2), with the values
      the C library gives them. */
  const SEEK_SET: int := 0
  const SEEK_CUR: int := 1
  const SEEK_END: int := 2

  datatype Stream = Stream(
    written: seq<bv8>,    // data[0 .. length): every byte currently held
    position: nat,        // read cursor
    capacity: nat,        // size of the allocated region
    recycleLength: nat,   // bytes discarded by compaction so far
    isStream: bool,       // streaming (compacting) mode, fixed at creation
    isDone: bool)         // producer has declared the end of the data

  function Min(a: int, b: int): int { if a < b then a else b }
  function Max(a: int, b: int): int { if a < b then b else a }

  /** The cursor invariant: position <= length <= capacity. */
  predicate Valid(s: Stream) {
    s.position <= |s.written| <= s.capacity
  }

  /** The bytes a reader has still to consume, in order. */
  function Unread(s: Stream): seq<bv8>
    requires s.position <= |s.written|
  {
    s.written[s.position..]
  }

  /** memory_stream_get_free: room left after the written bytes. */
  function Free(s: Stream): nat
    requires Valid(s)
  {
    s.capacity - |s.written|
  }

  /** memory_stream_get_available: bytes not yet read. */
  function Available(s: Stream): (n: nat)
    requires Valid(s)
    ensures n == |Unread(s)|
  {
    |s.written| - s.position
  }

  /** memory_stream_create, with allocation always succeeding. */
  function Create(capacity: nat, isStream: bool): (s: Stream)
    ensures Valid(s)
    ensures Unread(s) == [] && Free(s) == capacity && s.capacity == capacity
    ensures s.position == 0 && s.recycleLength == 0 && !s.isDone
    ensures s.isStream == isStream
  {
    Stream([], 0, capacity, 0, isStream, false)
  }

  /** memory_stream_collect: drop the consumed prefix and move the unread tail
      to offset 0. */
  function Collect(s: Stream): (r: Stream)
    requires Valid(s)
    ensures Valid(r)
    ensures Unread(r) == Unread(s) && Available(r) == Available(s)
    ensures r.position == 0 && |r.written| == |s.written| - s.position
    ensures r.recycleLength == s.recycleLength + s.position
    ensures r.capacity == s.capacity && r.isStream == s.isStream && r.isDone == s.isDone
  {
    s.(written := s.written[s.position..], position := 0,
       recycleLength := s.recycleLength + s.position)
  }

  /** Ceiling of a / b, in place of the source's floating-point `ceil`. */
  function CeilDiv(a: nat, b: nat): nat
    requires b > 0
  {
    (a + b - 1) / b
  }

  lemma CeilDivCovers(a: nat, b: nat)
    requires b > 0
    ensures CeilDiv(a, b) * b >= a
    ensures CeilDiv(a, b) * b < a + b
  {
    var q, m := (a + b - 1) / b, (a + b - 1) % b;
    assert q * b + m == a + b - 1;
  }

  /** The capacity memory_stream_resize asks for: double the old one, or enough
      whole pages for `size` more bytes past `length`, whichever is larger. */
  function GrownCapacity(capacity: nat, length: nat, size: nat): nat
  {
    Max(2 * capacity, CeilDiv(size, MEMORY_PAGE) * MEMORY_PAGE + length)
  }

  lemma GrownCapacityRoom(capacity: nat, length: nat, size: nat)
    requires length <= capacity
    ensures GrownCapacity(capacity, length, size) >= 2 * capacity
    ensures GrownCapacity(capacity, length, size) - length >= size
    ensures GrownCapacity(capacity, length, size) < 2 * capacity + size + MEMORY_PAGE
  {
    CeilDivCovers(size, MEMORY_PAGE);
  }

  /** memory_stream_resize: reallocate so that at least `size` bytes fit after
      the written ones; nothing written is moved or lost. */
  function Resize(s: Stream, size: nat): (r: Stream)
    requires Valid(s)
    ensures Valid(r)
    ensures r.capacity >= 2 * s.capacity && r.capacity - |r.written| >= size
    ensures r.written == s.written && r.position == s.position
    ensures r.recycleLength == s.recycleLength && r.isStream == s.isStream && r.isDone == s.isDone
  {
    GrownCapacityRoom(s.capacity, |s.written|, size);
    s.(capacity := GrownCapacity(s.capacity, |s.written|, size))
  }

  /** memory_stream_ensure_write: compact in streaming mode, then grow when
      `free + position` is short of `writeLength`. Returns the new state and the
      offset at which the caller is to write. */
  function EnsureWrite(s: Stream, writeLength: nat): (res: (Stream, nat))
    requires Valid(s)
    ensures Valid(res.0) && Unread(res.0) == Unread(s)
    ensures res.1 == |res.0.written|
    ensures res.0.capacity >= s.capacity
    ensures res.0.isStream == s.isStream && res.0.isDone == s.isDone
    ensures res.0.recycleLength == s.recycleLength + (if s.isStream then s.position else 0)
    ensures s.isStream ==> res.0.position == 0
    ensures !s.isStream ==> res.0.written == s.written && res.0.position == s.position
  {
    var c := if s.isStream && s.position > 0 then Collect(s) else s;
    var g := if Free(c) + c.position < writeLength then Resize(c, writeLength) else c;
    (g, |g.written|)
  }

  /** The same as EnsureWrite but growing whenever the free room itself is short
      of `writeLength`: the check the source evidently intends. */
  function EnsureWriteGrowing(s: Stream, writeLength: nat): (res: (Stream, nat))
    requires Valid(s)
    ensures Valid(res.0) && Unread(res.0) == Unread(s)
    ensures res.1 == |res.0.written|
    ensures Free(res.0) >= writeLength
    ensures res.0.capacity >= s.capacity
    ensures res.0.isStream == s.isStream && res.0.isDone == s.isDone
    ensures res.0.recycleLength == s.recycleLength + (if s.isStream then s.position else 0)
    ensures !s.isStream ==> res.0.written == s.written && res.0.position == s.position
  {
    var c := if s.isStream && s.position > 0 then Collect(s) else s;
    var g := if Free(c) < writeLength then Resize(c, writeLength) else c;
    (g, |g.written|)
  }

  /** memory_stream_did_write: commit the `filled` bytes placed after the written
      ones; the new length is clamped to the capacity, so bytes that do not fit
      are not kept. */
  function DidWrite(s: Stream, filled: seq<bv8>): (r: Stream)
    requires Valid(s)
    ensures Valid(r)
    ensures |r.written| == Min(s.capacity, |s.written| + |filled|)
    ensures r.written == s.written + filled[..|r.written| - |s.written|]
    ensures Unread(r) == Unread(s) + filled[..|r.written| - |s.written|]
    ensures r.position == s.position && r.capacity == s.capacity
    ensures r.recycleLength == s.recycleLength && r.isStream == s.isStream && r.isDone == s.isDone
  {
    var k := Min(Free(s), |filled|);
    s.(written := s.written + filled[..k])
  }

  /** memory_stream_write (and memory_stream_write_callback, whose callback fills
      the reserved region with `buf`): reserve, copy, commit; the count returned
      is always |buf|. */
  function Write(s: Stream, buf: seq<bv8>): (res: (Stream, nat))
    requires Valid(s)
    ensures Valid(res.0) && res.1 == |buf|
    ensures var room := Free(EnsureWrite(s, |buf|).0);
            Unread(res.0) == Unread(s) + buf[..Min(room, |buf|)]
    ensures res.0.capacity >= s.capacity
    ensures res.0.isStream == s.isStream && res.0.isDone == s.isDone
    ensures s.isStream ==> res.0.position == 0
    ensures !s.isStream ==> res.0.recycleLength == s.recycleLength && res.0.position == s.position
    ensures !s.isStream ==>
            res.0.written == s.written + buf[..Min(Free(EnsureWrite(s, |buf|).0), |buf|)]
  {
    var (e, _) := EnsureWrite(s, |buf|);
    (DidWrite(e, buf), |buf|)
  }

  /** Write built on EnsureWriteGrowing. */
  function WriteGrowing(s: Stream, buf: seq<bv8>): (res: (Stream, nat))
    requires Valid(s)
    ensures Valid(res.0) && res.1 == |buf|
    ensures Unread(res.0) == Unread(s) + buf
    ensures res.0.capacity >= s.capacity
    ensures res.0.isStream == s.isStream && res.0.isDone == s.isDone
    ensures s.isStream ==> res.0.position == 0
    ensures !s.isStream ==> res.0.recycleLength == s.recycleLength && res.0.position == s.position
    ensures !s.isStream ==> res.0.written == s.written + buf
  {
    var (e, _) := EnsureWriteGrowing(s, |buf|);
    (DidWrite(e, buf), |buf|)
  }

  /** memory_stream_read: take min(available, bufSize) bytes from the read
      cursor. Returns the new state and the bytes copied. */
  function Read(s: Stream, bufSize: nat): (res: (Stream, seq<bv8>))
    requires Valid(s)
    ensures Valid(res.0)
    ensures |res.1| == Min(Available(s), bufSize)
    ensures res.1 + Unread(res.0) == Unread(s)
    ensures res.0 == s.(position := s.position + |res.1|)
  {
    var n := Min(Available(s), bufSize);
    (s.(position := s.position + n), s.written[s.position..s.position + n])
  }

  /** The position memory_stream_seek aims at; -1 for an unknown `whence`. */
  function SeekTarget(s: Stream, offset: int, whence: int): int
  {
    if whence == SEEK_SET then offset
    else if whence == SEEK_CUR then s.position + offset
    else if whence == SEEK_END then |s.written| + offset
    else -1
  }

  /** memory_stream_seek: move the read cursor within [0, length]; -1 and no
      change on failure. */
  function Seek(s: Stream, offset: int, whence: int): (res: (Stream, int))
    requires Valid(s)
    ensures Valid(res.0)
    ensures res.1 != -1 <==>
            (whence == SEEK_SET && 0 <= offset <= |s.written|) ||
            (whence == SEEK_CUR && -(s.position as int) <= offset <= |s.written| - s.position) ||
            (whence == SEEK_END && -|s.written| <= offset <= 0)
    ensures res.1 != -1 ==> res.1 == SeekTarget(s, offset, whence) && res.0 == s.(position := res.1)
    ensures res.1 == -1 ==> res.0 == s
  {
    var pos := SeekTarget(s, offset, whence);
    if 0 <= pos <= |s.written| then (s.(position := pos), pos) else (s, -1)
  }
}
