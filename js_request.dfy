/**
 * The JavaScript half of the protocol (unpacker/js/request.js): the operation
 * table and the builders of the messages JavaScript posts to the native module.
 * Request ids and 64-bit quantities travel as decimal text.
 */
module JsRequest {
  import opened Wrappers
  import opened Wire
  import Decimal

  const READ_METADATA := 0
  const READ_METADATA_DONE := 1
  const READ_CHUNK := 2
  const READ_CHUNK_DONE := 3
  const READ_CHUNK_ERROR := 4
  const READ_PASSPHRASE := 5
  const READ_PASSPHRASE_DONE := 6
  const READ_PASSPHRASE_ERROR := 7
  const CLOSE_VOLUME := 8
  const OPEN_FILE := 9
  const OPEN_FILE_DONE := 10
  const CLOSE_FILE := 11
  const CLOSE_FILE_DONE := 12
  const READ_FILE := 13
  const READ_FILE_DONE := 14
  const CONSOLE_LOG := 15
  const CONSOLE_DEBUG := 16
  const FILE_SYSTEM_ERROR := -1

  /** The operation table in declaration order. */
  const Operations: seq<int> :=
    [READ_METADATA, READ_METADATA_DONE, READ_CHUNK, READ_CHUNK_DONE, READ_CHUNK_ERROR,
     READ_PASSPHRASE, READ_PASSPHRASE_DONE, READ_PASSPHRASE_ERROR, CLOSE_VOLUME, OPEN_FILE,
     OPEN_FILE_DONE, CLOSE_FILE, CLOSE_FILE_DONE, READ_FILE, READ_FILE_DONE, CONSOLE_LOG,
     CONSOLE_DEBUG, FILE_SYSTEM_ERROR]

  /** `x.toString()` for an integral JavaScript number. */
  function ToText(n: int): (v: Value)
    ensures v.Str? && Decimal.IsDecimal(v.s)
    ensures NumberOf(Some(v)) == Some(n)
  {
    Str(Decimal.IntToString(n))
  }

  const BasicKeys: set<string> := {OPERATION, FILE_SYSTEM_ID, REQUEST_ID}

  /** The mandatory fields every message carries. */
  function CreateBasic(operation: int, fileSystemId: string, requestId: int): (m: Message)
    ensures m.Keys == BasicKeys
    ensures Get(m, OPERATION) == Some(Int(operation))
    ensures Get(m, FILE_SYSTEM_ID) == Some(Str(fileSystemId))
    ensures NumberOf(Get(m, REQUEST_ID)) == Some(requestId)
  {
    map[OPERATION := Int(operation), FILE_SYSTEM_ID := Str(fileSystemId), REQUEST_ID := ToText(requestId)]
  }

  /** `m` is the basic message `basic` plus exactly the keys `extra`. */
  predicate Extends(m: Message, basic: Message, extra: set<string>)
  {
    m.Keys == basic.Keys + extra &&
    forall k :: k in basic ==> Get(m, k) == Get(basic, k)
  }

  function ReadMetadataRequest(fileSystemId: string, requestId: int, encoding: string, archiveSize: int)
    : (m: Message)
    ensures Extends(m, CreateBasic(READ_METADATA, fileSystemId, requestId), {ENCODING, ARCHIVE_SIZE})
    ensures Get(m, ENCODING) == Some(Str(encoding))
    ensures NumberOf(Get(m, ARCHIVE_SIZE)) == Some(archiveSize)
  {
    CreateBasic(READ_METADATA, fileSystemId, requestId)[ENCODING := Str(encoding)][ARCHIVE_SIZE := ToText(archiveSize)]
  }

  function ReadChunkDoneResponse(fileSystemId: string, requestId: int, buffer: seq<byte>, readOffset: int)
    : (m: Message)
    ensures Extends(m, CreateBasic(READ_CHUNK_DONE, fileSystemId, requestId), {CHUNK_BUFFER, OFFSET})
    ensures Get(m, CHUNK_BUFFER) == Some(Buffer(buffer))
    ensures NumberOf(Get(m, OFFSET)) == Some(readOffset)
  {
    CreateBasic(READ_CHUNK_DONE, fileSystemId, requestId)[CHUNK_BUFFER := Buffer(buffer)][OFFSET := ToText(readOffset)]
  }

  function ReadChunkErrorResponse(fileSystemId: string, requestId: int): (m: Message)
    ensures Extends(m, CreateBasic(READ_CHUNK_ERROR, fileSystemId, requestId), {})
  {
    CreateBasic(READ_CHUNK_ERROR, fileSystemId, requestId)
  }

  function ReadPassphraseDoneResponse(fileSystemId: string, requestId: int, passphrase: string): (m: Message)
    ensures Extends(m, CreateBasic(READ_PASSPHRASE_DONE, fileSystemId, requestId), {PASSPHRASE})
    ensures Get(m, PASSPHRASE) == Some(Str(passphrase))
  {
    CreateBasic(READ_PASSPHRASE_DONE, fileSystemId, requestId)[PASSPHRASE := Str(passphrase)]
  }

  function ReadPassphraseErrorResponse(fileSystemId: string, requestId: int): (m: Message)
    ensures Extends(m, CreateBasic(READ_PASSPHRASE_ERROR, fileSystemId, requestId), {})
  {
    CreateBasic(READ_PASSPHRASE_ERROR, fileSystemId, requestId)
  }

  /** Closing a volume is not an answer to anything: its request id is always -1. */
  function CloseVolumeRequest(fileSystemId: string): (m: Message)
    ensures Extends(m, CreateBasic(CLOSE_VOLUME, fileSystemId, -1), {})
    ensures Get(m, REQUEST_ID) == Some(Str("-1"))
  {
    assert Decimal.IntToString(-1) == "-1";
    CreateBasic(CLOSE_VOLUME, fileSystemId, -1)
  }

  function OpenFileRequest(fileSystemId: string, requestId: int, index: int, encoding: string,
                           archiveSize: int): (m: Message)
    ensures Extends(m, CreateBasic(OPEN_FILE, fileSystemId, requestId), {INDEX, ENCODING, ARCHIVE_SIZE})
    ensures NumberOf(Get(m, INDEX)) == Some(index)
    ensures Get(m, ENCODING) == Some(Str(encoding))
    ensures NumberOf(Get(m, ARCHIVE_SIZE)) == Some(archiveSize)
  {
    CreateBasic(OPEN_FILE, fileSystemId, requestId)[INDEX := ToText(index)][ENCODING := Str(encoding)]
      [ARCHIVE_SIZE := ToText(archiveSize)]
  }

  function CloseFileRequest(fileSystemId: string, requestId: int, openRequestId: int): (m: Message)
    ensures Extends(m, CreateBasic(CLOSE_FILE, fileSystemId, requestId), {OPEN_REQUEST_ID})
    ensures NumberOf(Get(m, OPEN_REQUEST_ID)) == Some(openRequestId)
  {
    CreateBasic(CLOSE_FILE, fileSystemId, requestId)[OPEN_REQUEST_ID := ToText(openRequestId)]
  }

  function ReadFileRequest(fileSystemId: string, requestId: int, openRequestId: int, offset: int,
                           length: int): (m: Message)
    ensures Extends(m, CreateBasic(READ_FILE, fileSystemId, requestId), {OPEN_REQUEST_ID, OFFSET, LENGTH})
    ensures NumberOf(Get(m, OPEN_REQUEST_ID)) == Some(openRequestId)
    ensures NumberOf(Get(m, OFFSET)) == Some(offset)
    ensures NumberOf(Get(m, LENGTH)) == Some(length)
  {
    CreateBasic(READ_FILE, fileSystemId, requestId)[OPEN_REQUEST_ID := ToText(openRequestId)]
      [OFFSET := ToText(offset)][LENGTH := ToText(length)]
  }

  /**
   * A record of the table rather than a property over inputs: no two
   * operations share a tag, so a message's operation names one case.
   */
  lemma OperationsDistinct()
    ensures forall i, j :: 0 <= i < j < |Operations| ==> Operations[i] != Operations[j]
  {
  }
}
