/**
 * The native volume of the unrar prototype (unrar/cpp/volume.cc): the reads
 * in progress, each with its JavaScript stream reader, and the metadata
 * read. Its `ConstructMetadata` is the same code as the current extension's,
 * so the tree is built by `NativeVolume.BuildMetadata`. Unlike the current
 * volume it checks nothing about request ids: a metadata read under an id
 * already in use keeps the earlier reader registered and then forgets the
 * id altogether.
 *
 * The libarchive outcomes are parameters: `initError` is the error text of
 * a failed `Init`, `headers` and `end` what `GetNextHeader` returns in turn,
 * and `cleanupError` the error text of a failed `Cleanup`. Messages are
 * built with the current extension's builders.
 */
module UnrarNativeVolume {
  import opened Wrappers
  import opened Wire
  import opened NativeRequest
  import NativeVolume
  import StreamReader
  import UnrarStreamReader

  /** The error sent for a chunk answer to a request id with no reader. */
  function NoReaderError(requestId: string): string
  {
    "No VolumeReader for <" + requestId + ">"
  }

  /** Registering a reader and then forgetting its id forgets the id. */
  lemma RegisterThenForget(m: map<string, UnrarStreamReader.JavaScriptStream>, requestId: string,
                           reader: UnrarStreamReader.JavaScriptStream)
    ensures m[requestId := reader] - {requestId} == m - {requestId}
  {
  }

  class Volume {
    const fileSystemId: string
    /** `worker_reads_in_progress_`, each archive given by its reader. */
    var readsInProgress: map<string, UnrarStreamReader.JavaScriptStream>
    /** The messages posted to JavaScript, oldest first. */
    var outbox: seq<Message>

    constructor(fileSystemId: string)
      ensures this.fileSystemId == fileSystemId && readsInProgress == map[] && outbox == []
    {
      this.fileSystemId := fileSystemId;
      readsInProgress := map[];
      outbox := [];
    }

    /** `GetJavaScriptVolumeReader`: the reader of a read in progress, or an error sent and none. */
    method GetJavaScriptVolumeReader(requestId: string) returns (reader: Option<UnrarStreamReader.JavaScriptStream>)
      modifies this`outbox
      ensures requestId in readsInProgress ==> reader == Some(readsInProgress[requestId]) && outbox == old(outbox)
      ensures requestId !in readsInProgress ==>
                reader.None? && outbox == old(outbox) + [FileSystemError(fileSystemId, requestId, NoReaderError(requestId))]
    {
      if requestId in readsInProgress {
        return Some(readsInProgress[requestId]);
      }
      outbox := outbox + [FileSystemError(fileSystemId, requestId, NoReaderError(requestId))];
      reader := None;
    }

    /** `ReadChunkDone`: the chunk goes to the reader of the request, whatever offset it was read from. */
    method ReadChunkDone(requestId: string, arrayBuffer: seq<byte>)
      modifies this`outbox, if requestId in readsInProgress then {readsInProgress[requestId]} else {}
      ensures requestId in readsInProgress ==>
                var reader := readsInProgress[requestId];
                && outbox == old(outbox)
                && reader.buffer == arrayBuffer && reader.availableData
                && reader.readError == old(reader.readError) && reader.offset == old(reader.offset)
                && reader.requests == old(reader.requests)
      ensures requestId !in readsInProgress ==>
                outbox == old(outbox) + [FileSystemError(fileSystemId, requestId, NoReaderError(requestId))]
    {
      var volumeReader := GetJavaScriptVolumeReader(requestId);
      if volumeReader.None? {
        return;
      }
      volumeReader.value.SetBufferAndSignal(arrayBuffer);
    }

    /** `ReadChunkError`: the reader of the request is told to fail; its waiting thread cleans up. */
    method ReadChunkError(requestId: string)
      modifies this`outbox, if requestId in readsInProgress then {readsInProgress[requestId]} else {}
      ensures requestId in readsInProgress ==>
                var reader := readsInProgress[requestId];
                && outbox == old(outbox)
                && reader.readError
                && reader.buffer == old(reader.buffer) && reader.availableData == old(reader.availableData)
                && reader.offset == old(reader.offset) && reader.requests == old(reader.requests)
      ensures requestId !in readsInProgress ==>
                outbox == old(outbox) + [FileSystemError(fileSystemId, requestId, NoReaderError(requestId))]
    {
      var volumeReader := GetJavaScriptVolumeReader(requestId);
      if volumeReader.None? {
        return;
      }
      volumeReader.value.ReadErrorSignal();
    }

    /**
     * `CreateVolumeArchive`: a new reader, which always opens, is registered
     * under the request id before `Init`, unless the id is already taken, in
     * which case the earlier reader stays. When `Init` fails its error is
     * sent and the id is forgotten.
     */
    method CreateVolumeArchive(requestId: string, archiveSize: int, initError: Option<string>)
      returns (archive: Option<UnrarStreamReader.JavaScriptStream>)
      modifies this`readsInProgress, this`outbox
      ensures initError.Some? ==>
                && archive.None? && readsInProgress == old(readsInProgress) - {requestId}
                && outbox == old(outbox) + [FileSystemError(fileSystemId, requestId, initError.value)]
      ensures initError.None? ==>
                && archive.Some? && fresh(archive.value) && outbox == old(outbox)
                && archive.value.requestId == requestId && archive.value.archiveSize == archiveSize
                && archive.value.offset == 0 && archive.value.requests == []
                && readsInProgress == (if requestId in old(readsInProgress) then old(readsInProgress)
                                       else old(readsInProgress)[requestId := archive.value])
    {
      var reader := new UnrarStreamReader.JavaScriptStream(requestId, archiveSize);
      var openCode := reader.Open();
      // The branch that reports "Couldn't open volume reader" is never taken.
      assert openCode == StreamReader.ARCHIVE_OK;
      if requestId !in readsInProgress {
        readsInProgress := readsInProgress[requestId := reader];
      }
      if initError.Some? {
        outbox := outbox + [FileSystemError(fileSystemId, requestId, initError.value)];
        var _ := CleanupVolumeArchive(requestId, false, None);
        return None;
      }
      archive := Some(reader);
    }

    /**
     * `CleanupVolumeArchive`: the id is always forgotten, present or not; a
     * failed `Cleanup` is reported, and the call fails, only when asked to post it.
     */
    method CleanupVolumeArchive(requestId: string, postCleanupError: bool, cleanupError: Option<string>)
      returns (ok: bool)
      modifies this`readsInProgress, this`outbox
      ensures readsInProgress == old(readsInProgress) - {requestId}
      ensures ok <==> !(postCleanupError && cleanupError.Some?)
      ensures ok ==> outbox == old(outbox)
      ensures !ok ==> outbox == old(outbox) + [FileSystemError(fileSystemId, requestId, cleanupError.value)]
    {
      readsInProgress := readsInProgress - {requestId};
      ok := true;
      if cleanupError.Some? && postCleanupError {
        outbox := outbox + [FileSystemError(fileSystemId, requestId, cleanupError.value)];
        ok := false;
      }
    }

    /**
     * `ReadMetadataCallback`: the headers are inserted, in order, into a tree
     * rooted at `/`; a header error sends that error and no metadata; at the
     * end the archive is cleaned up and the tree sent, unless the cleanup
     * fails. Whatever happens, the request id is no longer in progress.
     */
    method ReadMetadataCallback(requestId: string, archiveSize: int, initError: Option<string>,
                                headers: seq<NativeVolume.Header>, end: NativeVolume.HeaderEnd,
                                cleanupError: Option<string>)
      modifies this`readsInProgress, this`outbox
      ensures readsInProgress == old(readsInProgress) - {requestId}
      ensures initError.Some? ==> outbox == old(outbox) + [FileSystemError(fileSystemId, requestId, initError.value)]
      ensures initError.None? && end.HeaderError? ==>
                outbox == old(outbox) + [FileSystemError(fileSystemId, requestId, end.message)]
      ensures initError.None? && end.EndOfArchive? && cleanupError.Some? ==>
                outbox == old(outbox) + [FileSystemError(fileSystemId, requestId, cleanupError.value)]
      ensures initError.None? && end.EndOfArchive? && cleanupError.None? ==>
                outbox == old(outbox) +
                          [ReadMetadataDoneResponse(fileSystemId, requestId, NativeVolume.BuildMetadata(headers))]
    {
      var volumeArchive := CreateVolumeArchive(requestId, archiveSize, initError);
      if volumeArchive.None? {
        return;
      }
      RegisterThenForget(old(readsInProgress), requestId, volumeArchive.value);
      var rootMetadata := NativeVolume.ConstructAll(headers);
      if end.HeaderError? {
        outbox := outbox + [FileSystemError(fileSystemId, requestId, end.message)];
        var _ := CleanupVolumeArchive(requestId, false, cleanupError);
        return;
      }
      var ok := CleanupVolumeArchive(requestId, true, cleanupError);
      if !ok {
        return;
      }
      outbox := outbox + [ReadMetadataDoneResponse(fileSystemId, requestId, rootMetadata)];
    }
  }
}
