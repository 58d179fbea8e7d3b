/**
 * The NaCl instance of the current extension (unpacker/cpp/module.cc): it
 * keeps one `NativeVolume.Volume` per mounted file system id and routes
 * every message from JavaScript by its operation. Metadata reads and file
 * operations are posted to the volume's worker thread; the work posted is
 * the outcome `Posted`, and the callbacks that later run it are the methods
 * of `NativeVolume.Volume`. Whether the worker thread starts is a parameter.
 */
module NativeModule {
  import opened Wire
  import opened NativeRequest
  import NativeVolume
  import opened Wrappers
  import JsVolume
  import JsRequest
  import App

  /** What a volume's worker is asked to do, with the fields it is given. */
  datatype Work =
    | ReadMetadataWork(requestId: string, archiveSize: int)
    | OpenFileWork(requestId: string, filePath: string, archiveSize: int)
    | CloseFileWork(requestId: string, openRequestId: string)
    | ReadFileWork(requestId: string, dictionary: Message)

  /** How `HandleMessage` dealt with a message. */
  datatype Handled =
    | Posted(fileSystemId: string, work: Work)
    | VolumeNotCreated
    | ChunkDelivered(delivered: bool)
    | ChunkIgnored
    | VolumeClosed
    | CloseIgnored
    | Unhandled

  /** `AsInt` of the operation field: 0 for a missing or non-integer value. */
  function OperationOf(message: Message): (op: int)
    ensures Get(message, OPERATION).Some? && Get(message, OPERATION).value.Int? ==> op == message[OPERATION].i
    ensures !(Get(message, OPERATION).Some? && Get(message, OPERATION).value.Int?) ==> op == 0
  {
    match Get(message, OPERATION)
    case Some(Int(i)) => i
    case _ => 0
  }

  /** A field read with `AsString`. */
  function TextOf(message: Message, key: string): string
  {
    NativeVolume.AsString(Get(message, key))
  }

  /** The bytes of the chunk field; a value that is not an array buffer has none. */
  function ChunkOf(message: Message): (b: seq<byte>)
    ensures Get(message, CHUNK_BUFFER).Some? && Get(message, CHUNK_BUFFER).value.Buffer? ==>
              b == message[CHUNK_BUFFER].bytes
    ensures !(Get(message, CHUNK_BUFFER).Some? && Get(message, CHUNK_BUFFER).value.Buffer?) ==> b == []
  {
    match Get(message, CHUNK_BUFFER)
    case Some(Buffer(bytes)) => bytes
    case _ => []
  }

  /**
   * CLOSE_VOLUME as module.cc writes it: the id is looked up, and the found
   * volume is deleted and erased. `None` stands for an id that is not
   * registered, where the code deletes through the `end()` iterator, which is
   * undefined behaviour once the `PP_DCHECK` is compiled out.
   */
  function CloseVolumeAsWritten<V>(volumes: map<string, V>, fileSystemId: string): (r: Option<map<string, V>>)
    ensures r.None? <==> fileSystemId !in volumes
    ensures r.Some? ==> fileSystemId !in r.value && forall id :: id != fileSystemId ==> (id in r.value <==> id in volumes)
  {
    if fileSystemId in volumes then Some(volumes - {fileSystemId}) else None
  }

  /**
   * The corrected CLOSE_VOLUME: a registered volume is forgotten, and a close
   * for an id that was never registered (or is already closed) is ignored.
   */
  function CloseVolume<V>(volumes: map<string, V>, fileSystemId: string): (r: map<string, V>)
    ensures fileSystemId !in r
    ensures forall id :: id != fileSystemId ==> (id in r <==> id in volumes) && (id in r ==> r[id] == volumes[id])
    ensures fileSystemId !in volumes ==> r == volumes
    ensures CloseVolumeAsWritten(volumes, fileSystemId).Some? ==> Some(r) == CloseVolumeAsWritten(volumes, fileSystemId)
  {
    volumes - {fileSystemId}
  }

  /**
   * An instance that has not read the metadata of a volume cannot close it as
   * written: the first restore after a restart with nothing stored fails, the
   * registry force-unmounts the id and posts a close-volume request for it, and
   * a module that was just started holds no volume under that id. The two
   * revisions number the operation differently; what is shown here is the
   * native CLOSE_VOLUME case receiving the id that request carries.
   */
  method CloseAfterFailedRestore(fileSystemId: string, restoreEntry: string -> Option<JsVolume.ArchiveEntry>)
    returns (close: Message, asWritten: Option<map<string, NativeVolume.Volume>>,
             corrected: map<string, NativeVolume.Volume>)
    ensures TextOf(close, FILE_SYSTEM_ID) == fileSystemId && TextOf(close, REQUEST_ID) == "-1"
    ensures asWritten.None?
    ensures corrected == map[]
  {
    var registry := new App.App(None);
    var ticket, created := registry.RestoreSingleVolume(fileSystemId);
    var restored, outcome := registry.OnRestoreStateRead(fileSystemId, ticket, restoreEntry, true);
    close := registry.naclOutbox[|registry.naclOutbox| - 1];
    assert close == JsRequest.CloseVolumeRequest(fileSystemId);
    var instance := new Instance();
    asWritten := CloseVolumeAsWritten(instance.volumes, TextOf(close, FILE_SYSTEM_ID));
    corrected := CloseVolume(instance.volumes, TextOf(close, FILE_SYSTEM_ID));
  }

  /** The error sent when a new volume's worker thread does not start. */
  function VolumeCreationError(fileSystemId: string): string
  {
    "Could not create a volume for: " + fileSystemId + "."
  }

  class Instance {
    /** `volumes_`: every mounted archive by its file system id. */
    var volumes: map<string, NativeVolume.Volume>
    /** The messages the instance sends itself, oldest first. */
    var outbox: seq<Message>

    constructor()
      ensures volumes == map[] && outbox == []
    {
      volumes := map[];
      outbox := [];
    }

    /**
     * `HandleMessage`. A metadata read creates the volume, which must not
     * exist yet: if its worker does not start an error is sent and nothing
     * is registered, otherwise the volume is registered before the read is
     * posted to it. Chunks and chunk errors for a volume that is gone are
     * ignored. File operations need the volume to exist. Closing forgets
     * exactly that id, and is ignored for an id with no volume (the corrected
     * `CloseVolume`). Any other operation does nothing.
     */
    method HandleMessage(message: Message, workerStarts: bool) returns (r: Handled)
      requires OperationOf(message) == READ_METADATA ==> TextOf(message, FILE_SYSTEM_ID) !in volumes
      requires OperationOf(message) in {OPEN_FILE, CLOSE_FILE, READ_FILE} ==>
                 TextOf(message, FILE_SYSTEM_ID) in volumes
      modifies this
      ensures var op, fileSystemId, requestId := OperationOf(message), TextOf(message, FILE_SYSTEM_ID), TextOf(message, REQUEST_ID);
              && (op == READ_METADATA && !workerStarts ==>
                    && r == VolumeNotCreated && volumes == old(volumes)
                    && outbox == old(outbox) + [FileSystemError(fileSystemId, requestId, VolumeCreationError(fileSystemId))])
              && (op == READ_METADATA && workerStarts ==>
                    && r == Posted(fileSystemId, ReadMetadataWork(requestId, GetInt64FromString(message, ARCHIVE_SIZE)))
                    && fileSystemId in volumes && volumes == old(volumes)[fileSystemId := volumes[fileSystemId]]
                    && fresh(volumes[fileSystemId])
                    && volumes[fileSystemId].fileSystemId == fileSystemId
                    && volumes[fileSystemId].readsInProgress == map[] && volumes[fileSystemId].outbox == [])
              && (op in {READ_CHUNK_DONE, READ_CHUNK_ERROR} && fileSystemId !in old(volumes) ==> r == ChunkIgnored)
              && (op in {READ_CHUNK_DONE, READ_CHUNK_ERROR} && fileSystemId in old(volumes) ==>
                    r == ChunkDelivered(requestId in old(volumes)[fileSystemId].readsInProgress))
              && (op == OPEN_FILE ==>
                    r == Posted(fileSystemId,
                                OpenFileWork(requestId, TextOf(message, FILE_PATH), GetInt64FromString(message, ARCHIVE_SIZE))))
              && (op == CLOSE_FILE ==> r == Posted(fileSystemId, CloseFileWork(requestId, TextOf(message, OPEN_REQUEST_ID))))
              && (op == READ_FILE ==> r == Posted(fileSystemId, ReadFileWork(requestId, message)))
              && (op == CLOSE_VOLUME && fileSystemId in old(volumes) ==>
                    r == VolumeClosed && volumes == old(volumes) - {fileSystemId})
              && (op == CLOSE_VOLUME && fileSystemId !in old(volumes) ==> r == CloseIgnored && volumes == old(volumes))
              && (op !in {READ_METADATA, READ_CHUNK_DONE, READ_CHUNK_ERROR, OPEN_FILE, CLOSE_FILE, READ_FILE, CLOSE_VOLUME} ==>
                    r == Unhandled)
              && (op != READ_METADATA ==> outbox == old(outbox))
              && (op != READ_METADATA && op != CLOSE_VOLUME ==> volumes == old(volumes))
    {
      var operation := OperationOf(message);
      var fileSystemId := TextOf(message, FILE_SYSTEM_ID);
      var requestId := TextOf(message, REQUEST_ID);
      if operation == READ_METADATA {
        r := ReadMetadata(message, fileSystemId, requestId, workerStarts);
      } else if operation == READ_CHUNK_DONE {
        r := ReadChunkDone(message, fileSystemId, requestId);
      } else if operation == READ_CHUNK_ERROR {
        r := ReadChunkError(fileSystemId, requestId);
      } else if operation == OPEN_FILE {
        r := Posted(fileSystemId,
                    OpenFileWork(requestId, TextOf(message, FILE_PATH), GetInt64FromString(message, ARCHIVE_SIZE)));
      } else if operation == CLOSE_FILE {
        r := Posted(fileSystemId, CloseFileWork(requestId, TextOf(message, OPEN_REQUEST_ID)));
      } else if operation == READ_FILE {
        r := Posted(fileSystemId, ReadFileWork(requestId, message));
      } else if operation == CLOSE_VOLUME {
        r := if fileSystemId in volumes then VolumeClosed else CloseIgnored;
        volumes := CloseVolume(volumes, fileSystemId);
      } else {
        r := Unhandled;
      }
    }

    /** `ReadMetadata`: creates and registers the volume, then posts the read with the archive size. */
    method ReadMetadata(message: Message, fileSystemId: string, requestId: string, workerStarts: bool)
      returns (r: Handled)
      requires fileSystemId !in volumes
      modifies this
      ensures !workerStarts ==>
                && r == VolumeNotCreated && volumes == old(volumes)
                && outbox == old(outbox) + [FileSystemError(fileSystemId, requestId, VolumeCreationError(fileSystemId))]
      ensures workerStarts ==>
                && r == Posted(fileSystemId, ReadMetadataWork(requestId, GetInt64FromString(message, ARCHIVE_SIZE)))
                && fileSystemId in volumes && volumes == old(volumes)[fileSystemId := volumes[fileSystemId]]
                && fresh(volumes[fileSystemId])
                && volumes[fileSystemId].fileSystemId == fileSystemId
                && volumes[fileSystemId].readsInProgress == map[] && volumes[fileSystemId].outbox == []
                && outbox == old(outbox)
    {
      var volume := new NativeVolume.Volume(fileSystemId);
      if !workerStarts {
        outbox := outbox + [FileSystemError(fileSystemId, requestId, VolumeCreationError(fileSystemId))];
        return VolumeNotCreated;
      }
      volumes := volumes[fileSystemId := volume];
      r := Posted(fileSystemId, ReadMetadataWork(requestId, GetInt64FromString(message, ARCHIVE_SIZE)));
    }

    /** `ReadChunkDone`: a chunk for an unmounted volume, a late read ahead, is dropped. */
    method ReadChunkDone(message: Message, fileSystemId: string, requestId: string) returns (r: Handled)
      ensures fileSystemId !in volumes ==> r == ChunkIgnored
      ensures fileSystemId in volumes ==> r == ChunkDelivered(requestId in volumes[fileSystemId].readsInProgress)
    {
      if fileSystemId !in volumes {
        return ChunkIgnored;
      }
      var delivered := volumes[fileSystemId].ReadChunkDone(requestId, ChunkOf(message),
                                                          GetInt64FromString(message, OFFSET));
      r := ChunkDelivered(delivered);
    }

    /** `ReadChunkError`: likewise. */
    method ReadChunkError(fileSystemId: string, requestId: string) returns (r: Handled)
      ensures fileSystemId !in volumes ==> r == ChunkIgnored
      ensures fileSystemId in volumes ==> r == ChunkDelivered(requestId in volumes[fileSystemId].readsInProgress)
    {
      if fileSystemId !in volumes {
        return ChunkIgnored;
      }
      var delivered := volumes[fileSystemId].ReadChunkError(requestId);
      r := ChunkDelivered(delivered);
    }
  }
}
