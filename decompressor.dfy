/**
 * The JavaScript side of one volume's conversation with the native module
 * (unpacker/js/decompressor.js): a table of requests in flight, keyed by
 * request id, and the router that hands each native reply to the callbacks of
 * its request and decides whether the request is finished.
 */
module Decompressor {
  import opened Wrappers
  import opened Wire
  import JsRequest

  /** Names a callback function registered with a request. */
  type CallbackId = nat

  /** The record kept for a request in flight. */
  datatype Pending = Pending(onSuccess: CallbackId, onError: CallbackId)

  /** The callback call a reply causes, with the values passed to it. */
  datatype Delivery =
    | NoCallback
    | Succeeded(callback: CallbackId, args: seq<Option<Value>>)
    | Failed(callback: CallbackId, error: string)

  const FAILED := "FAILED"

  /** Replies that leave their request in the table. */
  predicate Kept(data: Message, operation: int)
  {
    operation == JsRequest.READ_CHUNK || operation == JsRequest.READ_PASSPHRASE ||
    operation == JsRequest.OPEN_FILE_DONE ||
    (operation == JsRequest.READ_FILE_DONE && Truthy(Get(data, HAS_MORE_DATA)))
  }

  /** The open request a close-file reply finishes: `Number(data.open_request_id)`. */
  function ClosedOpenId(data: Message): Option<int>
  {
    NumberOf(Get(data, OPEN_REQUEST_ID))
  }

  /** The request table after the reply `(data, operation)` for `requestId`. */
  function RemainingRequests(m: map<int, Pending>, data: Message, operation: int, requestId: int)
    : (r: map<int, Pending>)
    ensures requestId in m ==> (requestId in r <==> Kept(data, operation))
    ensures forall k :: k in r ==> k in m && r[k] == m[k]
    ensures forall k :: (k in m && k != requestId &&
                         !(operation == JsRequest.CLOSE_FILE_DONE && ClosedOpenId(data) == Some(k))) ==> k in r
    ensures operation == JsRequest.CLOSE_FILE_DONE && ClosedOpenId(data).Some? ==> ClosedOpenId(data).value !in r
  {
    if Kept(data, operation) then m
    else if operation == JsRequest.CLOSE_FILE_DONE && ClosedOpenId(data).Some? then
      m - {ClosedOpenId(data).value} - {requestId}
    else m - {requestId}
  }

  /** The callback a reply invokes for the request record `p`. */
  function Notification(p: Pending, data: Message, operation: int): (d: Delivery)
    ensures d.NoCallback? <==> operation == JsRequest.READ_CHUNK || operation == JsRequest.READ_PASSPHRASE
    ensures d.Succeeded? ==> d.callback == p.onSuccess
    ensures d.Failed? ==> d.callback == p.onError && d.error == FAILED
    ensures d.Succeeded? <==> operation in {JsRequest.READ_METADATA_DONE, JsRequest.OPEN_FILE_DONE,
                                          JsRequest.CLOSE_FILE_DONE, JsRequest.READ_FILE_DONE}
    ensures operation == JsRequest.READ_METADATA_DONE ==> d.args == [Get(data, METADATA)]
    ensures operation == JsRequest.READ_FILE_DONE ==>
              d.args == [Get(data, READ_FILE_DATA), Get(data, HAS_MORE_DATA)]
  {
    if operation == JsRequest.READ_METADATA_DONE then Succeeded(p.onSuccess, [Get(data, METADATA)])
    else if operation == JsRequest.READ_CHUNK || operation == JsRequest.READ_PASSPHRASE then NoCallback
    else if operation == JsRequest.OPEN_FILE_DONE || operation == JsRequest.CLOSE_FILE_DONE then
      Succeeded(p.onSuccess, [])
    else if operation == JsRequest.READ_FILE_DONE then
      Succeeded(p.onSuccess, [Get(data, READ_FILE_DATA), Get(data, HAS_MORE_DATA)])
    else Failed(p.onError, FAILED)
  }

  /** What `readChunk_` asserts of a chunk request: a numeric offset inside the blob, a positive length. */
  predicate ChunkRequestValid(data: Message, blobSize: int)
  {
    Get(data, OFFSET).Some? && NumberOf(Get(data, OFFSET)).Some? &&
    0 <= NumberOf(Get(data, OFFSET)).value < blobSize &&
    Truthy(Get(data, LENGTH)) && NumberOf(Get(data, LENGTH)).Some? && NumberOf(Get(data, LENGTH)).value > 0
  }

  /** The part of the blob a valid chunk request is served: from the offset, at most to the end. */
  function ChunkRange(data: Message, blobSize: int): (range: (nat, nat))
    requires ChunkRequestValid(data, blobSize)
    ensures range.0 == NumberOf(Get(data, OFFSET)).value
    ensures 0 < range.1 && range.0 + range.1 <= blobSize
    ensures range.1 <= NumberOf(Get(data, LENGTH)).value
    ensures range.1 == NumberOf(Get(data, LENGTH)).value || range.0 + range.1 == blobSize
  {
    var offset := NumberOf(Get(data, OFFSET)).value;
    var requested := NumberOf(Get(data, LENGTH)).value;
    (offset, if blobSize - offset < requested then blobSize - offset else requested)
  }

  /** The reply that serves `length` bytes of the blob from `offset`, or reports a failed read. */
  function ChunkReplyAt(fileSystemId: string, blob: seq<byte>, requestId: int, offset: nat, length: nat,
                        readOk: bool): Message
    requires offset + length <= |blob|
  {
    if readOk then JsRequest.ReadChunkDoneResponse(fileSystemId, requestId, blob[offset..offset + length], offset)
    else JsRequest.ReadChunkErrorResponse(fileSystemId, requestId)
  }

  /** The answer to a chunk request: the bytes and the same offset, or an error when reading failed. */
  function ChunkReply(fileSystemId: string, blob: seq<byte>, data: Message, requestId: int, readOk: bool)
    : Message
    requires ChunkRequestValid(data, |blob|)
  {
    var range := ChunkRange(data, |blob|);
    ChunkReplyAt(fileSystemId, blob, requestId, range.0, range.1, readOk)
  }

  /**
   * A successful chunk reply holds the bytes of the served range of the blob
   * and echoes the offset; `ChunkRange` says how that range relates to the
   * requested offset and length.
   */
  lemma ChunkReplyServesBlob(fileSystemId: string, blob: seq<byte>, data: Message, requestId: int)
    requires ChunkRequestValid(data, |blob|)
    ensures var range := ChunkRange(data, |blob|);
            var m := ChunkReply(fileSystemId, blob, data, requestId, true);
            Get(m, CHUNK_BUFFER) == Some(Buffer(blob[range.0..range.0 + range.1])) &&
            NumberOf(Get(m, OFFSET)) == Some(NumberOf(Get(data, OFFSET)).value)
  {
    var range := ChunkRange(data, |blob|);
    assert ChunkReply(fileSystemId, blob, data, requestId, true) ==
           ChunkReplyAt(fileSystemId, blob, requestId, range.0, range.1, true);
    ChunkReplyAtCarries(fileSystemId, blob, requestId, range.0, range.1);
  }

  /** A successful reply at a range carries exactly that range's bytes and its offset. */
  lemma ChunkReplyAtCarries(fileSystemId: string, blob: seq<byte>, requestId: int, offset: nat, length: nat)
    requires offset + length <= |blob|
    ensures var m := ChunkReplyAt(fileSystemId, blob, requestId, offset, length, true);
            Get(m, CHUNK_BUFFER) == Some(Buffer(blob[offset..offset + length])) &&
            NumberOf(Get(m, OFFSET)) == Some(offset)
  {
  }

  class Decompressor {
    const fileSystemId: string
    /** The archive's contents (the `Blob` the volume reads chunks from). */
    const blob: seq<byte>
    var requestsInProgress: map<int, Pending>
    /** Every message posted to the native module, oldest first. */
    var sent: seq<Message>

    constructor(fileSystemId: string, blob: seq<byte>)
      ensures this.fileSystemId == fileSystemId && this.blob == blob
      ensures requestsInProgress == map[] && sent == []
    {
      this.fileSystemId := fileSystemId;
      this.blob := blob;
      requestsInProgress := map[];
      sent := [];
    }

    predicate HasRequestsInProgress()
      reads this
    {
      |requestsInProgress| > 0
    }

    /** `hasRequestsInProgress` holds exactly when some request is in flight. */
    lemma HasRequestsInProgressIff()
      ensures HasRequestsInProgress() <==> exists id :: id in requestsInProgress
    {
      if !(exists id :: id in requestsInProgress) {
        assert requestsInProgress == map[];
      }
    }

    /** Registers the callbacks of `requestId` and posts `request`. */
    method AddRequest(requestId: int, callbacks: Pending, request: Message)
      requires requestId !in requestsInProgress
      modifies this
      ensures requestsInProgress == old(requestsInProgress)[requestId := callbacks]
      ensures sent == old(sent) + [request]
    {
      requestsInProgress := requestsInProgress[requestId := callbacks];
      sent := sent + [request];
    }

    method ReadMetadata(requestId: int, encoding: string, callbacks: Pending)
      requires requestId !in requestsInProgress
      modifies this
      ensures requestsInProgress == old(requestsInProgress)[requestId := callbacks]
      ensures sent == old(sent) + [JsRequest.ReadMetadataRequest(fileSystemId, requestId, encoding, |blob|)]
    {
      AddRequest(requestId, callbacks, JsRequest.ReadMetadataRequest(fileSystemId, requestId, encoding, |blob|));
    }

    method OpenFile(requestId: int, index: int, encoding: string, callbacks: Pending)
      requires requestId !in requestsInProgress
      modifies this
      ensures requestsInProgress == old(requestsInProgress)[requestId := callbacks]
      ensures sent == old(sent) + [JsRequest.OpenFileRequest(fileSystemId, requestId, index, encoding, |blob|)]
    {
      AddRequest(requestId, callbacks, JsRequest.OpenFileRequest(fileSystemId, requestId, index, encoding, |blob|));
    }

    method CloseFile(requestId: int, openRequestId: int, callbacks: Pending)
      requires requestId !in requestsInProgress
      modifies this
      ensures requestsInProgress == old(requestsInProgress)[requestId := callbacks]
      ensures sent == old(sent) + [JsRequest.CloseFileRequest(fileSystemId, requestId, openRequestId)]
    {
      AddRequest(requestId, callbacks, JsRequest.CloseFileRequest(fileSystemId, requestId, openRequestId));
    }

    method ReadFile(requestId: int, openRequestId: int, offset: int, length: int, callbacks: Pending)
      requires requestId !in requestsInProgress
      modifies this
      ensures requestsInProgress == old(requestsInProgress)[requestId := callbacks]
      ensures sent == old(sent) + [JsRequest.ReadFileRequest(fileSystemId, requestId, openRequestId, offset, length)]
    {
      AddRequest(requestId, callbacks,
                 JsRequest.ReadFileRequest(fileSystemId, requestId, openRequestId, offset, length));
    }

    /**
     * Handles the reply `(data, operation)` for `requestId`. `chunkReadOk` is
     * the outcome of reading the blob for a chunk request.
     */
    method ProcessMessage(data: Message, operation: int, requestId: int, chunkReadOk: bool) returns (d: Delivery)
      requires requestId in requestsInProgress
      requires operation == JsRequest.READ_CHUNK ==> ChunkRequestValid(data, |blob|)
      modifies this
      ensures requestsInProgress == RemainingRequests(old(requestsInProgress), data, operation, requestId)
      ensures d == Notification(old(requestsInProgress)[requestId], data, operation)
      ensures operation == JsRequest.READ_CHUNK ==>
                sent == old(sent) + [ChunkReply(fileSystemId, blob, data, requestId, chunkReadOk)]
      ensures operation != JsRequest.READ_CHUNK ==> sent == old(sent)
    {
      var requestInProgress := requestsInProgress[requestId];
      if operation == JsRequest.READ_METADATA_DONE {
        d := Succeeded(requestInProgress.onSuccess, [Get(data, METADATA)]);
      } else if operation == JsRequest.READ_CHUNK {
        ReadChunk(data, requestId, chunkReadOk);
        return NoCallback;
      } else if operation == JsRequest.READ_PASSPHRASE {
        return NoCallback;
      } else if operation == JsRequest.OPEN_FILE_DONE {
        return Succeeded(requestInProgress.onSuccess, []);
      } else if operation == JsRequest.CLOSE_FILE_DONE {
        var openRequestId := NumberOf(Get(data, OPEN_REQUEST_ID));
        if openRequestId.Some? {
          requestsInProgress := requestsInProgress - {openRequestId.value};
        }
        d := Succeeded(requestInProgress.onSuccess, []);
      } else if operation == JsRequest.READ_FILE_DONE {
        var hasMoreData := Get(data, HAS_MORE_DATA);
        d := Succeeded(requestInProgress.onSuccess, [Get(data, READ_FILE_DATA), hasMoreData]);
        if Truthy(hasMoreData) {
          return;
        }
      } else {
        d := Failed(requestInProgress.onError, FAILED);
      }
      requestsInProgress := requestsInProgress - {requestId};
    }

    /** `readChunk_`: serves the requested part of the blob, or an error if reading it failed. */
    method ReadChunk(data: Message, requestId: int, readOk: bool)
      requires ChunkRequestValid(data, |blob|)
      modifies this
      ensures requestsInProgress == old(requestsInProgress)
      ensures sent == old(sent) + [ChunkReply(fileSystemId, blob, data, requestId, readOk)]
    {
      var offset: nat := NumberOf(Get(data, OFFSET)).value;
      var length: nat := NumberOf(Get(data, LENGTH)).value;
      if |blob| - offset < length {
        length := |blob| - offset;
      }
      sent := sent + [ChunkReplyAt(fileSystemId, blob, requestId, offset, length, readOk)];
    }

    /**
     * The end of `readPassphrase_`: the passphrase the user gave, or none if
     * asking failed. On failure the reply is an error and the volume asks for
     * a forced unmount (`unmountRequested`).
     */
    method OnPassphrase(requestId: int, passphrase: Option<string>) returns (unmountRequested: bool)
      modifies this
      ensures requestsInProgress == old(requestsInProgress)
      ensures passphrase.Some? ==>
                sent == old(sent) + [JsRequest.ReadPassphraseDoneResponse(fileSystemId, requestId, passphrase.value)]
      ensures passphrase.None? ==>
                sent == old(sent) + [JsRequest.ReadPassphraseErrorResponse(fileSystemId, requestId)]
      ensures unmountRequested <==> passphrase.None?
    {
      if passphrase.Some? {
        sent := sent + [JsRequest.ReadPassphraseDoneResponse(fileSystemId, requestId, passphrase.value)];
        unmountRequested := false;
      } else {
        sent := sent + [JsRequest.ReadPassphraseErrorResponse(fileSystemId, requestId)];
        unmountRequested := true;
      }
    }
  }
}
