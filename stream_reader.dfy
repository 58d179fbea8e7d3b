/**
 * The reader libarchive pulls archive bytes from in the current extension
 * (unpacker/cpp/volume_reader_javascript_stream.cc). Bytes come from
 * JavaScript in chunks the reader asks for; while libarchive works on the
 * buffer of the last `Read`, the next chunk is read ahead into the other of
 * two buffers. A chunk that arrives for an offset the reader has left by
 * `Seek` or `Skip` is dropped.
 *
 * The chunk requests the reader makes are collected in `requests`. The
 * waiting of `Read` for JavaScript is the outcome `Blocked`: the waiting
 * thread resumes, after `SetBufferAndSignal` or `ReadErrorSignal`, exactly
 * where a new call of `Read` would continue, since nothing it has looked at
 * changes in between.
 */
module StreamReader {
  import opened Wrappers
  import opened Wire

  /** libarchive's status codes. */
  const ARCHIVE_OK := 0
  const ARCHIVE_FATAL := -30

  /** The `whence` values of `<stdio.h>`. */
  const SEEK_SET := 0
  const SEEK_CUR := 1
  const SEEK_END := 2

  /** `kReadAheadLengthThreshold`: 10 KiB. */
  const READ_AHEAD_LENGTH_THRESHOLD := 10 * 1024

  function Min(a: int, b: int): int
  {
    if a <= b then a else b
  }

  /** A `RequestFileChunk` call: `length` bytes of the archive from `offset`, for the read `requestId`. */
  datatype ChunkRequest = ChunkRequest(requestId: string, offset: int, length: int)

  /** What `Read` hands back: a status or byte count with the bytes, or a wait for JavaScript. */
  datatype ReadOutcome = Returned(code: int, data: seq<byte>) | Blocked

  /**
   * The chunk `ReadAhead` asks for at `offset`: none at or past the end,
   * otherwise the length asked for, cut short at the end of the archive.
   */
  function ReadAheadRequest(requestId: string, offset: int, archiveSize: int, length: nat)
    : (r: seq<ChunkRequest>)
    ensures r == [] <==> archiveSize <= offset
    ensures |r| <= 1
    ensures r != [] ==> r[0].requestId == requestId && r[0].offset == offset
    ensures r != [] ==> 0 <= r[0].length <= length && r[0].offset + r[0].length <= archiveSize
    ensures r != [] ==> r[0].length == length || r[0].offset + r[0].length == archiveSize
  {
    if archiveSize <= offset then [] else [ChunkRequest(requestId, offset, Min(length, archiveSize - offset))]
  }

  /** The offset a seek asks for; `None` for an unknown `whence`. */
  function SeekTarget(current: int, archiveSize: int, offset: int, whence: int): Option<int>
  {
    if whence == SEEK_SET then Some(offset)
    else if whence == SEEK_CUR then Some(current + offset)
    else if whence == SEEK_END then Some(archiveSize + offset)
    else None
  }

  /** Whether `Seek` moves: a known `whence` and a target inside the archive, its end included. */
  predicate SeekAccepted(current: int, archiveSize: int, offset: int, whence: int)
  {
    var target := SeekTarget(current, archiveSize, offset, whence);
    target.Some? && 0 <= target.value <= archiveSize
  }

  /** Whether `Skip` moves: a count that is not negative and does not pass the end. */
  predicate SkipAccepted(current: int, archiveSize: int, bytes: int)
  {
    0 <= bytes && bytes <= archiveSize - current
  }

  /**
   * Skipping forward is seeking from the current offset: the same counts are
   * accepted and lead to the same offset. Only backward moves differ: `Skip`
   * refuses every negative count.
   */
  lemma SkipIsForwardSeek(current: int, archiveSize: int, bytes: int)
    requires 0 <= current
    ensures 0 <= bytes ==> (SkipAccepted(current, archiveSize, bytes) <==> SeekAccepted(current, archiveSize, bytes, SEEK_CUR))
    ensures SkipAccepted(current, archiveSize, bytes) ==> SeekTarget(current, archiveSize, bytes, SEEK_CUR) == Some(current + bytes)
    ensures bytes < 0 ==> !SkipAccepted(current, archiveSize, bytes)
  {
  }

  /** Seeking to a position is undone by seeking back, whichever `whence` reached it. */
  lemma SeekBack(current: int, archiveSize: int, offset: int, whence: int)
    requires 0 <= current <= archiveSize
    requires SeekAccepted(current, archiveSize, offset, whence)
    ensures var there := SeekTarget(current, archiveSize, offset, whence).value;
            SeekAccepted(there, archiveSize, current - there, SEEK_CUR) &&
            SeekTarget(there, archiveSize, current - there, SEEK_CUR) == Some(current)
  {
  }

  class JavaScriptStream {
    const requestId: string
    const archiveSize: int
    /** `available_data_`: the read-ahead buffer holds the chunk for `offset`. */
    var availableData: bool
    /** `read_error_`: JavaScript failed a chunk; it is never cleared. */
    var readError: bool
    var offset: int
    var firstBuffer: seq<byte>
    var secondBuffer: seq<byte>
    /** `read_ahead_array_buffer_ptr_` points at the first buffer. */
    var readAheadIsFirst: bool
    /** The chunk requests made so far, oldest first. */
    var requests: seq<ChunkRequest>

    /** The buffer the next chunk is copied into. */
    function ReadAheadBuffer(): seq<byte>
      reads this
    {
      if readAheadIsFirst then firstBuffer else secondBuffer
    }

    /** The other buffer: the one the last `Read` handed to libarchive. */
    function MappedBuffer(): seq<byte>
      reads this
    {
      if readAheadIsFirst then secondBuffer else firstBuffer
    }

    /**
     * The offset is never negative, every chunk asked for lies inside the
     * archive and belongs to this read, and while no data is available
     * before the end the last chunk asked for starts at the current offset.
     */
    ghost predicate Valid()
      reads this
    {
      && 0 <= offset
      && (forall i :: 0 <= i < |requests| ==>
            && requests[i].requestId == requestId
            && 0 <= requests[i].offset
            && 0 <= requests[i].length
            && requests[i].offset + requests[i].length <= archiveSize)
      && (!availableData && offset < archiveSize ==> |requests| > 0 && requests[|requests| - 1].offset == offset)
    }

    /** The reader starts at offset 0 and reads the first chunk ahead, 10 KiB at most. */
    constructor(requestId: string, archiveSize: int)
      ensures Valid()
      ensures this.requestId == requestId && this.archiveSize == archiveSize
      ensures offset == 0 && !availableData && !readError
      ensures firstBuffer == [] && secondBuffer == [] && readAheadIsFirst
      ensures requests == ReadAheadRequest(requestId, 0, archiveSize, READ_AHEAD_LENGTH_THRESHOLD)
    {
      this.requestId := requestId;
      this.archiveSize := archiveSize;
      availableData := false;
      readError := false;
      offset := 0;
      firstBuffer := [];
      secondBuffer := [];
      readAheadIsFirst := true;
      requests := [];
      new;
      ReadAhead(READ_AHEAD_LENGTH_THRESHOLD);
    }

    /**
     * `ReadAhead`: before the end, asks for the next chunk at the current
     * offset and marks the data as not available; at the end, does nothing.
     */
    method ReadAhead(readAheadLength: nat)
      requires 0 <= offset
      requires forall i :: 0 <= i < |requests| ==>
                 && requests[i].requestId == requestId && 0 <= requests[i].offset && 0 <= requests[i].length
                 && requests[i].offset + requests[i].length <= archiveSize
      modifies this`availableData, this`requests
      ensures Valid()
      ensures requests == old(requests) + ReadAheadRequest(requestId, offset, archiveSize, readAheadLength)
      ensures availableData == (old(availableData) && archiveSize <= offset)
    {
      if archiveSize <= offset {
        return;
      }
      var bytesToRead := Min(readAheadLength, archiveSize - offset);
      availableData := false;
      requests := requests + [ChunkRequest(requestId, offset, bytesToRead)];
    }

    /**
     * `SetBufferAndSignal`: a chunk for the current offset fills the
     * read-ahead buffer and makes data available; the buffer libarchive is
     * working on is never touched. A chunk for any other offset is dropped.
     */
    method SetBufferAndSignal(buffer: seq<byte>, readOffset: int)
      requires Valid()
      modifies this`firstBuffer, this`secondBuffer, this`availableData
      ensures Valid()
      ensures readOffset != offset ==>
                availableData == old(availableData) && firstBuffer == old(firstBuffer) && secondBuffer == old(secondBuffer)
      ensures readOffset == offset ==>
                availableData && ReadAheadBuffer() == buffer && MappedBuffer() == old(MappedBuffer())
    {
      if readOffset != offset {
        return;
      }
      if readAheadIsFirst {
        firstBuffer := buffer;
      } else {
        secondBuffer := buffer;
      }
      availableData := true;
    }

    /** `ReadErrorSignal`: a waiting or later `Read` without data fails. */
    method ReadErrorSignal()
      requires Valid()
      modifies this`readError
      ensures Valid()
      ensures readError
    {
      readError := true;
    }

    /** `Open`: the file lives on the JavaScript side, so there is nothing to open. */
    method Open() returns (r: int)
      ensures r == ARCHIVE_OK
    {
      r := ARCHIVE_OK;
    }

    /** `Close`: likewise nothing to do. */
    method Close() returns (r: int)
      ensures r == ARCHIVE_OK
    {
      r := ARCHIVE_OK;
    }

    /**
     * `Read`: 0 at or past the end. Otherwise, once data is available, hands
     * out up to `bytesToRead` bytes of the read-ahead buffer, advances the
     * offset by exactly that many, swaps the buffers and reads ahead as much
     * as was asked for. Without data it fails when JavaScript reported an
     * error and waits otherwise; both leave the state as it was.
     */
    method Read(bytesToRead: nat) returns (r: ReadOutcome)
      requires Valid()
      modifies this
      ensures Valid()
      ensures old(offset) >= archiveSize ==> r == Returned(0, []) && unchanged(this)
      ensures old(offset) < archiveSize && !old(availableData) ==>
                r == (if old(readError) then Returned(ARCHIVE_FATAL, []) else Blocked) && unchanged(this)
      ensures old(offset) < archiveSize && old(availableData) ==>
                var n := Min(|old(ReadAheadBuffer())|, bytesToRead);
                && r == Returned(n, old(ReadAheadBuffer())[..n])
                && offset == old(offset) + n
                && readAheadIsFirst == !old(readAheadIsFirst)
                && firstBuffer == old(firstBuffer) && secondBuffer == old(secondBuffer)
                && MappedBuffer() == old(ReadAheadBuffer())
                && requests == old(requests) + ReadAheadRequest(requestId, offset, archiveSize, bytesToRead)
                && availableData == (archiveSize <= offset)
                && readError == old(readError)
    {
      if offset >= archiveSize {
        return Returned(0, []);
      }
      if !availableData {
        if readError {
          return Returned(ARCHIVE_FATAL, []);
        }
        return Blocked;
      }
      var destinationBuffer := ReadAheadBuffer();
      var bytesRead := Min(|destinationBuffer|, bytesToRead);
      offset := offset + bytesRead;
      readAheadIsFirst := !readAheadIsFirst;
      ReadAhead(bytesToRead);
      r := Returned(bytesRead, destinationBuffer[..bytesRead]);
    }

    /**
     * `Seek`: a target inside the archive becomes the offset, is returned,
     * and restarts the read ahead at 10 KiB; any other target, or an unknown
     * `whence`, fails and leaves everything as it was.
     */
    method Seek(offset': int, whence: int) returns (r: int)
      requires Valid()
      modifies this`offset, this`availableData, this`requests
      ensures Valid()
      ensures r == ARCHIVE_FATAL <==> !SeekAccepted(old(offset), archiveSize, offset', whence)
      ensures r == ARCHIVE_FATAL ==> unchanged(this)
      ensures r != ARCHIVE_FATAL ==>
                && Some(r) == SeekTarget(old(offset), archiveSize, offset', whence)
                && offset == r && 0 <= r <= archiveSize
                && requests == old(requests) + ReadAheadRequest(requestId, r, archiveSize, READ_AHEAD_LENGTH_THRESHOLD)
                && availableData == (old(availableData) && archiveSize <= r)
    {
      var newOffset := offset;
      if whence == SEEK_SET {
        newOffset := offset';
      } else if whence == SEEK_CUR {
        newOffset := newOffset + offset';
      } else if whence == SEEK_END {
        newOffset := archiveSize + offset';
      } else {
        return ARCHIVE_FATAL;
      }
      if newOffset < 0 || newOffset > archiveSize {
        return ARCHIVE_FATAL;
      }
      offset := newOffset;
      ReadAhead(READ_AHEAD_LENGTH_THRESHOLD);
      r := offset;
    }

    /**
     * `Skip`: a negative count, or one past the end, returns 0 and moves
     * nothing, so that libarchive reports the corruption on its next read;
     * otherwise the offset advances, the count is returned and the read
     * ahead restarts at 10 KiB.
     */
    method Skip(bytesToSkip: int) returns (r: int)
      requires Valid()
      modifies this`offset, this`availableData, this`requests
      ensures Valid()
      ensures !SkipAccepted(old(offset), archiveSize, bytesToSkip) ==> r == 0 && unchanged(this)
      ensures SkipAccepted(old(offset), archiveSize, bytesToSkip) ==>
                && r == bytesToSkip && offset == old(offset) + bytesToSkip
                && requests == old(requests) + ReadAheadRequest(requestId, offset, archiveSize, READ_AHEAD_LENGTH_THRESHOLD)
                && availableData == (old(availableData) && archiveSize <= offset)
    {
      if archiveSize - offset < bytesToSkip || bytesToSkip < 0 {
        return 0;
      }
      offset := offset + bytesToSkip;
      ReadAhead(READ_AHEAD_LENGTH_THRESHOLD);
      r := bytesToSkip;
    }
  }
}
