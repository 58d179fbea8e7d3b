/**
 * The reader of the unrar prototype (unrar/cpp/volume_reader_javascript_stream.cc).
 * There is one buffer and no read ahead: every `Read` asks JavaScript for
 * the bytes it needs and waits for them. `Seek` and `Skip` check no bounds.
 *
 * As in `StreamReader`, chunk requests are collected in `requests` and the
 * wait is the outcome `Blocked`. Here the wait follows a request made by the
 * same call, so the part after the request is its own method, `Await`,
 * which the waiting thread runs again on every signal.
 */
module UnrarStreamReader {
  import opened Wrappers
  import opened Wire
  import StreamReader

  /** A `RequestFileChunk` call: `length` bytes of the archive from `offset`. */
  datatype ChunkRequest = ChunkRequest(requestId: string, offset: int, length: int)

  class JavaScriptStream {
    const requestId: string
    const archiveSize: int
    var availableData: bool
    var readError: bool
    var offset: int
    /** `array_buffer_`: the last chunk delivered. */
    var buffer: seq<byte>
    var requests: seq<ChunkRequest>

    /** The reader starts at offset 0 and asks for nothing yet. */
    constructor(requestId: string, archiveSize: int)
      ensures this.requestId == requestId && this.archiveSize == archiveSize
      ensures offset == 0 && !availableData && !readError && buffer == [] && requests == []
    {
      this.requestId := requestId;
      this.archiveSize := archiveSize;
      availableData := false;
      readError := false;
      offset := 0;
      buffer := [];
      requests := [];
    }

    /** `SetBufferAndSignal`: any chunk is taken, whatever offset it was read from. */
    method SetBufferAndSignal(arrayBuffer: seq<byte>)
      modifies this`buffer, this`availableData
      ensures buffer == arrayBuffer && availableData
    {
      buffer := arrayBuffer;
      availableData := true;
    }

    method ReadErrorSignal()
      modifies this`readError
      ensures readError
    {
      readError := true;
    }

    method Open() returns (r: int)
      ensures r == StreamReader.ARCHIVE_OK
    {
      r := StreamReader.ARCHIVE_OK;
    }

    method Close() returns (r: int)
      ensures r == StreamReader.ARCHIVE_OK
    {
      r := StreamReader.ARCHIVE_OK;
    }

    /**
     * `Read`: 0 at or past the end; otherwise a request for exactly
     * `bytesToRead` bytes at the offset, not cut at the end of the archive,
     * and then the wait. Right after the request no data is available, so
     * the call fails at once if JavaScript has ever reported an error, and
     * waits otherwise.
     */
    method Read(bytesToRead: nat) returns (r: StreamReader.ReadOutcome)
      modifies this`availableData, this`requests, this`offset
      ensures old(offset) >= archiveSize ==> r == StreamReader.Returned(0, []) && unchanged(this)
      ensures old(offset) < archiveSize ==>
                && !availableData && offset == old(offset)
                && requests == old(requests) + [ChunkRequest(requestId, offset, bytesToRead)]
                && r == (if readError then StreamReader.Returned(StreamReader.ARCHIVE_FATAL, []) else StreamReader.Blocked)
    {
      if offset >= archiveSize {
        return StreamReader.Returned(0, []);
      }
      availableData := false;
      requests := requests + [ChunkRequest(requestId, offset, bytesToRead)];
      r := Await();
    }

    /**
     * The wait of `Read` and what follows it: with data, the whole buffer is
     * handed out and the offset advances by its full length, however many
     * bytes were asked for; without data, an error fails the read and
     * anything else keeps waiting.
     */
    method Await() returns (r: StreamReader.ReadOutcome)
      modifies this`offset
      ensures availableData ==> r == StreamReader.Returned(|buffer|, buffer) && offset == old(offset) + |buffer|
      ensures !availableData ==>
                r == (if readError then StreamReader.Returned(StreamReader.ARCHIVE_FATAL, []) else StreamReader.Blocked) &&
                offset == old(offset)
    {
      if !availableData {
        if readError {
          return StreamReader.Returned(StreamReader.ARCHIVE_FATAL, []);
        }
        return StreamReader.Blocked;
      }
      var bytesRead := |buffer|;
      offset := offset + bytesRead;
      r := StreamReader.Returned(bytesRead, buffer);
    }

    /**
     * `Seek`: the new offset is the target of `whence`, with no bounds
     * check, and is returned; an unknown `whence` fails and moves nothing.
     */
    method Seek(offset': int, whence: int) returns (r: int)
      modifies this`offset
      ensures StreamReader.SeekTarget(old(offset), archiveSize, offset', whence).None? ==>
                r == StreamReader.ARCHIVE_FATAL && offset == old(offset)
      ensures StreamReader.SeekTarget(old(offset), archiveSize, offset', whence).Some? ==>
                offset == r && Some(r) == StreamReader.SeekTarget(old(offset), archiveSize, offset', whence)
    {
      if whence == StreamReader.SEEK_SET {
        offset := offset';
        return offset;
      } else if whence == StreamReader.SEEK_CUR {
        offset := offset + offset';
        return offset;
      } else if whence == StreamReader.SEEK_END {
        offset := archiveSize + offset';
        return offset;
      }
      return StreamReader.ARCHIVE_FATAL;
    }

    /** `Skip`: any count, negative or past the end, moves the offset and is returned. */
    method Skip(bytesToSkip: int) returns (r: int)
      modifies this`offset
      ensures offset == old(offset) + bytesToSkip && r == bytesToSkip
    {
      offset := offset + bytesToSkip;
      r := bytesToSkip;
    }
  }

  /**
   * Without bounds checks a seek can leave the archive. For every known
   * `whence` the prototype moves to the target, and the current reader
   * refuses exactly the targets outside [0, archive size] and keeps its offset.
   */
  lemma SeekOutsideArchive(current: int, archiveSize: int, offset: int, whence: int)
    requires whence in {StreamReader.SEEK_SET, StreamReader.SEEK_CUR, StreamReader.SEEK_END}
    ensures StreamReader.SeekTarget(current, archiveSize, offset, whence).Some?
    ensures var target := StreamReader.SeekTarget(current, archiveSize, offset, whence).value;
            (target < 0 || archiveSize < target) <==> !StreamReader.SeekAccepted(current, archiveSize, offset, whence)
  {
  }
}
