/**
 * The protocol of the unrar prototype (unrar/js/request.js): a smaller
 * operation table, which here agrees with the native enum (unrar/cpp/request.h),
 * and the builders JavaScript uses. The mandatory fields are built exactly as
 * in the current extension, by `JsRequest.CreateBasic`.
 */
module UnrarRequest {
  import opened Wrappers
  import opened Wire
  import JsRequest

  const READ_METADATA := 0
  const READ_METADATA_DONE := 1
  const READ_CHUNK := 2
  const READ_CHUNK_DONE := 3
  const READ_CHUNK_ERROR := 4
  const CLOSE_VOLUME := 5
  const FILE_SYSTEM_ERROR := -1

  /** The JavaScript table, in declaration order. */
  const Operations: seq<int> :=
    [READ_METADATA, READ_METADATA_DONE, READ_CHUNK, READ_CHUNK_DONE, READ_CHUNK_ERROR, CLOSE_VOLUME,
     FILE_SYSTEM_ERROR]

  /** The native `enum Operation`, in declaration order. */
  const NativeOperations: seq<int> := [0, 1, 2, 3, 4, 5, -1]

  /**
   * A record of the two tables rather than a property over inputs: both
   * sides give every operation the same number, and no two operations share one.
   */
  lemma OperationsMatchNative()
    ensures Operations == NativeOperations
    ensures forall i, j :: 0 <= i < j < |Operations| ==> Operations[i] != Operations[j]
  {
  }

  /** The archive size travels as decimal text. */
  function ReadMetadataRequest(fileSystemId: string, requestId: int, archiveSize: int): (m: Message)
    ensures JsRequest.Extends(m, JsRequest.CreateBasic(READ_METADATA, fileSystemId, requestId), {ARCHIVE_SIZE})
    ensures Get(m, ARCHIVE_SIZE).Some? && Get(m, ARCHIVE_SIZE).value.Str?
    ensures NumberOf(Get(m, ARCHIVE_SIZE)) == Some(archiveSize)
  {
    JsRequest.CreateBasic(READ_METADATA, fileSystemId, requestId)[ARCHIVE_SIZE := JsRequest.ToText(archiveSize)]
  }

  /** The buffer goes unchanged; unlike the current extension, no offset is echoed. */
  function ReadChunkDoneResponse(fileSystemId: string, requestId: int, buffer: seq<byte>): (m: Message)
    ensures JsRequest.Extends(m, JsRequest.CreateBasic(READ_CHUNK_DONE, fileSystemId, requestId), {CHUNK_BUFFER})
    ensures Get(m, CHUNK_BUFFER) == Some(Buffer(buffer))
    ensures OFFSET !in m
  {
    JsRequest.CreateBasic(READ_CHUNK_DONE, fileSystemId, requestId)[CHUNK_BUFFER := Buffer(buffer)]
  }

  /**
   * A chunk error carries the mandatory fields and nothing else. Both trees
   * number it 4, so it is the same message as the current extension's.
   */
  function ReadChunkErrorResponse(fileSystemId: string, requestId: int): (m: Message)
    ensures JsRequest.Extends(m, JsRequest.CreateBasic(READ_CHUNK_ERROR, fileSystemId, requestId), {})
    ensures m.Keys == JsRequest.BasicKeys
    ensures m == JsRequest.ReadChunkErrorResponse(fileSystemId, requestId)
  {
    JsRequest.CreateBasic(READ_CHUNK_ERROR, fileSystemId, requestId)
  }

  /** Closing a volume answers nothing: the request id is always "-1". */
  function CloseVolumeRequest(fileSystemId: string): (m: Message)
    ensures JsRequest.Extends(m, JsRequest.CreateBasic(CLOSE_VOLUME, fileSystemId, -1), {})
    ensures Get(m, OPERATION) == Some(Int(CLOSE_VOLUME))
    ensures Get(m, REQUEST_ID) == Some(Str("-1"))
  {
    assert JsRequest.ToText(-1) == Str("-1");
    JsRequest.CreateBasic(CLOSE_VOLUME, fileSystemId, -1)
  }
}
