# MemoryStream: a growable byte buffer between a producer and a consumer

This project models `MemoryStream`, the byte buffer at the centre of the
voyager-media demux/decode pipeline. A producer appends bytes. It either copies
them in or reserves room and commits what it filled. A consumer (the demuxer's
read/seek callbacks) reads them back through a read cursor. The buffer has two
modes, fixed when it is created:

- **Streaming mode.** Before each write, the bytes already read are discarded.
  The unread tail moves to offset 0, and `recycle_length` counts the discarded
  bytes.
- **Seekable mode.** Everything written stays in place, and the read cursor can
  move anywhere in `[0, length]`.

Before a write, the buffer grows when the free room after `length` plus the
read cursor is less than the request. In streaming mode the cursor is 0 after
compaction, so this is just the free room. In seekable mode a non-zero cursor
can make up the shortfall, and then the buffer does not grow (see Findings).
The new capacity is the larger of twice the old capacity and `length` plus the
request rounded up to whole 64 KiB pages.

The model has three modules:

- `StreamSpec` (stream_spec.dfy) is the value model. A `Stream` holds the
  written bytes `data[0 .. length)`, the read cursor, the capacity,
  `recycle_length` and the two flags. Each C operation is a function, and its
  contract says what the operation means in terms of the unread bytes (`Unread`)
  and the free room (`Free`).
- `MemoryStreams` (memory_stream.dfy) is the object itself: a class over an
  `array<bv8>` with the C struct's fields. Its methods update the fields and
  the array in place, as the C code does: memmove, realloc, memcpy and cursor
  arithmetic. Each method is proved to take `Abs()`, the written bytes with
  the cursors and flags, to the matching `StreamSpec` function of the old
  `Abs()`. `Collect`, `Resize`, `EnsureWrite`, `EnsureWriteGrowing`, `Read`
  and `CopyAtWriteOffset` also state what happens to the bytes of the region
  past `length`. `DidWrite`, `CopyAndCommit`, `Write` and `WriteCallback`
  state only the written bytes.
- `StreamProperties` (stream_properties.dfy) holds the properties of combined
  operations:
  - when ensure-write compacts and when it grows;
  - when a write appends all of its bytes;
  - chunked reads return the unread bytes in order;
  - any interleaving of writes and reads is FIFO in streaming mode;
  - the seekable-mode write that drops bytes (see Findings);
  - two end-to-end scenarios.

The `is_stream` and `is_done` fields are C `int`s that are only tested for
truth. They are modelled as `bool`. `is_stream` is a `const` because nothing
assigns it after creation. `is_done` is declared in no header here but is used
by src/memory_stream.c:26 and src/memory_stream.c:62. The model follows the
`.c` file.

Three behaviours of the code are kept as they are:

- Seek does not translate offsets by `recycle_length`. It works in `[0, length]`
  in both modes, also after compaction has discarded bytes.
- `did_write` clamps `length` to `capacity`. It never grows the buffer itself.
- `is_done` is set to whatever value the caller passes, so it can go back to
  false.

## Model

| member | source | states |
|---|---|---|
| StreamSpec.Available | src/memory_stream.c:45-48 | the available count is the number of unread bytes |
| StreamSpec.Create | src/memory_stream.c:9-31 | a new buffer has the given capacity, nothing written or unread, cursors and recycle count 0, is_done false, and the given mode |
| StreamSpec.Collect | src/memory_stream.c:65-75 | compaction keeps the unread bytes and the available count unchanged, sets position to 0, shortens length by the old position, adds the old position to recycle_length, and keeps capacity and flags |
| StreamSpec.CeilDivCovers | src/memory_stream.c:79 | the integer page count times the page size covers the request and overshoots by less than a page |
| StreamSpec.GrownCapacityRoom | src/memory_stream.c:77-83 | the grown capacity is at least twice the old one, leaves at least `size` bytes after `length`, and exceeds 2*capacity + size by less than a page |
| StreamSpec.Resize | src/memory_stream.c:77-83 | growth never shrinks (at least doubles) the capacity, leaves room for `size` bytes after `length`, and keeps the written bytes and cursors |
| StreamSpec.EnsureWrite | src/memory_stream.c:85-97 | ensure-write never loses an unread byte, returns the current length as the write offset, never shrinks capacity, compacts in streaming mode (position becomes 0 and recycle_length grows by it) and touches nothing written in seekable mode |
| StreamSpec.EnsureWriteGrowing | src/memory_stream.c:85-97 | the corrected ensure-write (growth test `free < n`) always leaves room for the request, with the same preservation guarantees |
| StreamSpec.DidWrite | src/memory_stream.c:111-114 | commit makes length min(capacity, length + k) and appends exactly the committed bytes that fit after the unread ones; the clamp keeps position <= length <= capacity |
| StreamSpec.Write | src/memory_stream.c:116-122 | write returns \|buf\|, appends to the unread bytes the prefix of buf that fits in the room ensure-write left, and never shrinks capacity; in streaming mode position becomes 0; in seekable mode position and recycle_length are kept and the written bytes become the old written bytes followed by that prefix of buf |
| StreamSpec.WriteGrowing | src/memory_stream.c:116-122 | with the corrected growth test a write appends all of buf after the unread bytes in either mode; position becomes 0 in streaming mode; in seekable mode position is kept and the written bytes become the old ones followed by all of buf |
| StreamSpec.Read | src/memory_stream.c:99-109 | read returns min(available, bufSize) bytes taken off the front of the unread bytes, in order, and changes only the position; with nothing available it returns nothing and changes nothing |
| StreamSpec.Seek | src/memory_stream.c:132-154 | seek succeeds iff whence is SEEK_SET, SEEK_CUR or SEEK_END and the target offset, position+offset or length+offset lies in [0, length]; it then returns the target and changes only position; otherwise it returns -1 and changes nothing |
| StreamProperties.EnsureWriteSteps | src/memory_stream.c:85-97 | ensure-write compacts exactly when streaming with position > 0, and grows exactly when free + position < n |
| StreamProperties.EnsureWriteRoomIff | src/memory_stream.c:85-97 | afterwards n bytes fit iff the buffer is streaming, already had the room, or had to grow: a seekable buffer with free < n <= free + position is left short |
| StreamProperties.WriteAppends | src/memory_stream.c:116-130 | when ensure-write leaves room (always in streaming mode), write and write_callback append all of buf after the unread bytes and return \|buf\| |
| StreamProperties.SeekableWriteDropsBytes | src/memory_stream.c:85-122 | in seekable mode with free < \|buf\| <= free + position, write returns \|buf\| but keeps only the first `free` bytes of buf and fills length to capacity |
| StreamProperties.SeekableWriteCounterexample | src/memory_stream.c:85-122 | a full seekable buffer of 4 bytes with 2 read: writing [5, 6] returns 2 while the unread bytes stay [3, 4] |
| StreamProperties.ReadChunksInOrder | src/memory_stream.c:99-109 | reads in any chunk sizes return min(total requested, available) bytes, which are the front of the unread bytes in order, and move only the position |
| StreamProperties.ReadChunksDrain | src/memory_stream.c:99-109 | chunks that ask for at least the available count return exactly the unread bytes and leave nothing available |
| StreamProperties.WriteThenReadRoundTrip | src/memory_stream.c:99-122 | when ensure-write leaves room, writing buf and reading in any covering chunking returns the old unread bytes followed by buf |
| StreamProperties.Run | src/memory_stream.c:85-130 | along any sequence of writes and reads capacity never decreases, recycle_length never decreases, and in seekable mode recycle_length never changes and the bytes written before stay a prefix of the written bytes (nothing is discarded) |
| StreamProperties.StreamingRunIsFifo | src/memory_stream.c:85-130 | in streaming mode, for any interleaving of writes and reads, the bytes read followed by those still unread equal the initial unread bytes followed by every byte written |
| StreamProperties.GrowingRunIsFifo | src/memory_stream.c:85-130 | with the corrected growth test the same FIFO property holds in both modes |
| StreamProperties.GrowThenReadThreeChunks | src/memory_stream.c:99-122 | a new buffer of capacity 100 given 250 bytes returns 100, 100 and 50 bytes to three reads of 100, together equal to the input |
| StreamProperties.SeekThenRead | src/memory_stream.c:99-154 | a seekable buffer given 1024 bytes, seeked to 512 from the start, returns bytes [512, 612) to a read of 100 |
| MemoryStreams.MemoryStream.constructor | src/memory_stream.c:9-31 | allocates a fresh region of the given capacity; the abstract value is StreamSpec.Create |
| MemoryStreams.MemoryStream.Free | src/memory_stream.c:40-43 | the free count and the length together fill the allocated region |
| MemoryStreams.MemoryStream.Available | src/memory_stream.c:45-48 | the available count is the number of unread bytes |
| MemoryStreams.MemoryStream.ReadPosition | src/memory_stream.c:50-53 | the read offset is where the unread bytes start: data[off..length] is the unread bytes |
| MemoryStreams.MemoryStream.WritePosition | src/memory_stream.c:55-58 | the write offset is just past the written bytes, at the start of the free room |
| MemoryStreams.MemoryStream.SetDone | src/memory_stream.c:60-63 | sets is_done to the given value and changes nothing else |
| MemoryStreams.MemoryStream.Collect | src/memory_stream.c:65-75 | moves data[position..length) to offset 0 in place and leaves the rest of the region as it was; the abstract value follows StreamSpec.Collect |
| MemoryStreams.MemoryStream.Resize | src/memory_stream.c:77-83 | replaces the region by a fresh one of the grown capacity holding every old byte at its old offset; the abstract value follows StreamSpec.Resize |
| MemoryStreams.MemoryStream.EnsureWrite | src/memory_stream.c:85-97 | the new state and returned write offset are those of StreamSpec.EnsureWrite; the region is the old one or a fresh one, and its first old-capacity bytes are the old region, compacted in streaming mode with position > 0 |
| MemoryStreams.MemoryStream.EnsureWriteGrowing | src/memory_stream.c:85-97 | the corrected ensure-write; the new state and offset are those of StreamSpec.EnsureWriteGrowing, with the same statement about the region's bytes |
| MemoryStreams.MemoryStream.Read | src/memory_stream.c:99-109 | copies the bytes StreamSpec.Read returns into buf[0..n), leaves the rest of buf untouched, and advances position as StreamSpec.Read does |
| MemoryStreams.MemoryStream.DidWrite | src/memory_stream.c:111-114 | commits the bytes present in the region after length, clamped to capacity, as StreamSpec.DidWrite |
| MemoryStreams.MemoryStream.CopyAtWriteOffset | src/memory_stream.c:119 | stores in the region the part of the bytes that lands inside it, at the write offset, and leaves every other byte of the region unchanged |
| MemoryStreams.MemoryStream.CopyAndCommit | src/memory_stream.c:119-120 | copy followed by commit appends the given bytes as StreamSpec.DidWrite does |
| MemoryStreams.MemoryStream.Write | src/memory_stream.c:116-122 | ensure-write, copy and commit together give the state and count of StreamSpec.Write; the region is the old one or a fresh one, never another live array |
| MemoryStreams.MemoryStream.WriteCallback | src/memory_stream.c:124-130 | with the callback filling the reserved bufSize bytes with `filled`, the state and count are those of StreamSpec.Write on `filled`; the region is the old one or a fresh one |
| MemoryStreams.MemoryStream.Seek | src/memory_stream.c:132-154 | computes the target from whence exactly as the C branches do; the state and return value are those of StreamSpec.Seek |
| MemoryStreams.WriteThenReadBack | src/memory_stream.c:99-122 | a write into a drained streaming buffer followed by a read of the same size into an array the caller already holds returns exactly the bytes written |

## Findings

| source | as written | input that shows it | evidently intended | confidence | as-written member | corrected member |
|---|---|---|---|---|---|---|
| src/memory_stream.c:85-97 | ensure-write counts `position` as reclaimable room (`free + position < write_length`) but compacts only in streaming mode, so in seekable mode with position > 0 it can skip growth although `capacity - length < write_length`. The following memcpy then runs past the region, and did_write clamps `length` to `capacity`, while write returns `buf_size` | seekable buffer of capacity 4 holding [1, 2, 3, 4] with position 2; write [5, 6]: no growth, returns 2, unread bytes stay [3, 4] | grow whenever `free < write_length` after the optional compaction, so that every write is kept in full | not executed; derived from the code | StreamProperties.SeekableWriteDropsBytes | StreamSpec.EnsureWriteGrowing |

`StreamProperties.SeekableWriteCounterexample` is the concrete instance. The
corrected write is `StreamSpec.WriteGrowing`, and `StreamProperties.GrowingRunIsFifo`
proves FIFO order for it in both modes. `MemoryStreams.MemoryStream.EnsureWriteGrowing`
is the corrected in-place version.

## Left out

- memory_stream_free is not modelled. Deallocation has no observable effect on the buffer's contents.
- Allocation failure is not modelled: malloc in create and realloc in resize always succeed. The C code does not check realloc, and create returns `errno` on failure.
- MemoryStreams.MemoryStream.Resize: the bytes of the region past the old capacity are indeterminate after realloc. The model's fresh array happens to hold zeros, and no contract says anything about them.
- The `double` `ceil` in resize is replaced by exact integer ceiling division. The two agree for every size below 2^53.
- Integer widths are not modelled. The `int` truncation of the count in read, the `int` result in seek, `size_t` wrap-around in `capacity * 2` and in cursor arithmetic, and `long` overflow of `position + offset` are all left out. Sizes are unbounded integers.
- MemoryStreams.MemoryStream.Write and WriteCallback: when ensure-write leaves too little room, the C memcpy writes past the end of the region, which is undefined behaviour. The model stores only the bytes that land inside the region. Memory corruption beyond the region is not modelled.
- MemoryStreams.MemoryStream.WriteCallback: the foreign callback is represented only by the bytes it leaves in the reserved region. These are given as `filled`, with |filled| == bufSize.
- MemoryStreams.MemoryStream.Read requires that the destination array is not the buffer's own region. C's memcpy makes the same demand of non-overlapping arguments.
- The pointer getters become offsets into `data` (ReadPosition, WritePosition). The producer writes the reserved region through the public `data` array before DidWrite.
- Locking, condition-variable waits and end-of-stream blocking belong to the demux/decode glue around the buffer, not to memory_stream.c. They are not modelled, and neither are the FFmpeg, emscripten and file-copy harness code.
