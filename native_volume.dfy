/**
 * One mounted archive on the native side (unpacker/cpp/volume.cc): the map of
 * reads in progress, keyed by request id, and the worker callbacks that walk
 * the archive headers, open files and decompress data. The archive library is
 * an abstract source of headers and data, given to each callback; the worker
 * thread and its locks are left out, so each callback runs as one step and its
 * messages to JavaScript are appended to `outbox`.
 */
module NativeVolume {
  import opened Wrappers
  import opened Wire
  import opened Metadata
  import opened NativeMetadata
  import opened NativeRequest

  /** One archive header: its path (no leading '/'), size, kind and modification time. */
  datatype Header = Header(path: string, size: int, isDirectory: bool, modificationTime: int)

  /** How the header walk ends: at the end of the archive, or on an error of the archive library. */
  datatype HeaderEnd = EndOfArchive | HeaderError(message: string)

  /** What creating a volume archive for a request comes to. */
  datatype Opening =
    | ReaderFailed              // the JavaScript stream reader did not open
    | ArchiveNotCreated         // the archive factory gave NULL
    | InitFailed(message: string)
    | Opened

  /** What `VolumeArchive::ReadData` gives for an offset and a length. */
  datatype ReadResult = ReadFailed(message: string) | ReadBytes(data: seq<byte>)

  /** One answer of the read loop, before it becomes a message. */
  datatype ReadReply = DataChunk(data: seq<byte>, hasMore: bool) | ReadError(message: string)

  /** A read in progress; only its presence in the map matters here. */
  datatype ArchiveHandle = ArchiveHandle(archiveSize: int)

  const READER_OPEN_ERROR := "Couldn't open volume reader."

  /** The root every metadata walk starts from. */
  function RootEntry(): (e: Entry)
    ensures e.isDirectory && e.name == "/" && e.entries == Present([])
    ensures NumericValue(e.size) == 0 && NumericValue(e.modificationTime) == 0
  {
    CreateEntry([PATH_DELIMITER], true, 0, 0)
  }

  /** The tree after inserting the headers in order, as the metadata loop does. */
  function BuildMetadata(headers: seq<Header>): Entry
    decreases |headers|
  {
    if headers == [] then RootEntry()
    else
      var h := headers[|headers| - 1];
      ConstructMetadata(h.path, h.size, h.isDirectory, h.modificationTime, BuildMetadata(headers[..|headers| - 1]))
  }

  /** The header loop of `ReadMetadataCallback`: every header in turn is inserted into the tree. */
  method ConstructAll(headers: seq<Header>) returns (root: Entry)
    ensures root == BuildMetadata(headers)
  {
    root := CreateEntry([PATH_DELIMITER], true, 0, 0);
    var i := 0;
    while i < |headers|
      invariant 0 <= i <= |headers|
      invariant root == BuildMetadata(headers[..i])
    {
      var h := headers[i];
      assert headers[..i + 1][..i] == headers[..i];
      root := ConstructMetadata(h.path, h.size, h.isDirectory, h.modificationTime, root);
      i := i + 1;
    }
    assert headers[..i] == headers;
  }

  /** Whatever the headers, the tree is the root directory `/` with size and time 0 and unique names. */
  lemma {:induction false} BuildMetadataRoot(headers: seq<Header>)
    ensures SameAttributes(BuildMetadata(headers), RootEntry())
    ensures BuildMetadata(headers).entries.Present?
    ensures UniqueKeys(ChildrenOf(BuildMetadata(headers)))
    decreases |headers|
  {
    if headers != [] {
      BuildMetadataRoot(headers[..|headers| - 1]);
    }
  }

  /** Each header is placed in the tree as ConstructMetadata promises, over the tree of the headers before it. */
  lemma BuildMetadataPlacesLast(headers: seq<Header>)
    requires headers != [] && headers[|headers| - 1].path != ""
    ensures var h := headers[|headers| - 1];
            PathPlaced(BuildMetadata(headers[..|headers| - 1]), BuildMetadata(headers),
                       h.path, h.size, h.isDirectory, h.modificationTime)
  {
    var h := headers[|headers| - 1];
    ConstructMetadataPlacesEntry(h.path, h.size, h.isDirectory, h.modificationTime,
                                 BuildMetadata(headers[..|headers| - 1]));
  }

  /** A header the open loop stops at: its path with a leading '/' is the requested one. */
  predicate Matches(h: Header, filePath: string)
  {
    [PATH_DELIMITER] + h.path == filePath
  }

  /** `ReadData` never gives more bytes than asked for. */
  ghost predicate ReadsWithin(readData: (int, int) -> ReadResult)
  {
    forall offset, length :: 0 < length && readData(offset, length).ReadBytes? ==>
                               |readData(offset, length).data| <= length
  }

  /**
   * The answers of the read loop from `offset` with `left` bytes to go: a
   * chunk per `ReadData`, more data announced while bytes remain and the last
   * read was not empty; an empty read or a failure ends it.
   */
  function ReadReplies(readData: (int, int) -> ReadResult, offset: int, left: int): (r: seq<ReadReply>)
    decreases if left > 0 then left else 0
  {
    if left <= 0 then []
    else
      var result := readData(offset, left);
      if result.ReadFailed? then [ReadError(result.message)]
      else
        var n := |result.data|;
        var chunk := DataChunk(result.data, left - n > 0 && n > 0);
        if n == 0 then [chunk] else [chunk] + ReadReplies(readData, offset + n, left - n)
  }

  /** The bytes the chunks carry. */
  function DataBytes(rs: seq<ReadReply>): nat
  {
    if rs == [] then 0
    else (if rs[0].DataChunk? then |rs[0].data| else 0) + DataBytes(rs[1..])
  }

  lemma DataBytesCons(first: ReadReply, rest: seq<ReadReply>)
    ensures DataBytes([first] + rest) == (if first.DataChunk? then |first.data| else 0) + DataBytes(rest)
  {
    assert ([first] + rest)[1..] == rest;
  }

  /** The read loop ends with an error or with a chunk that announces no more data. */
  lemma {:induction false} ReadRepliesEnd(readData: (int, int) -> ReadResult, offset: int, left: int)
    requires left > 0
    ensures var rs := ReadReplies(readData, offset, left);
            rs != [] && (rs[|rs| - 1].ReadError? || !rs[|rs| - 1].hasMore)
    decreases left
  {
    var result := readData(offset, left);
    if result.ReadBytes? {
      var n := |result.data|;
      var first := DataChunk(result.data, left - n > 0 && n > 0);
      if n > 0 && left - n > 0 {
        var rest := ReadReplies(readData, offset + n, left - n);
        ReadRepliesEnd(readData, offset + n, left - n);
        assert ReadReplies(readData, offset, left) == [first] + rest;
      } else if n > 0 {
        assert ReadReplies(readData, offset + n, left - n) == [];
        assert ReadReplies(readData, offset, left) == [first] + [];
      }
    }
  }

  /** Every answer but the last is a chunk announcing more data. */
  lemma {:induction false} ReadRepliesMore(readData: (int, int) -> ReadResult, offset: int, left: int, k: nat)
    requires k + 1 < |ReadReplies(readData, offset, left)|
    ensures ReadReplies(readData, offset, left)[k].DataChunk?
    ensures ReadReplies(readData, offset, left)[k].hasMore
    decreases left
  {
    var result := readData(offset, left);
    var n := |result.data|;
    if k > 0 {
      ReadRepliesMore(readData, offset + n, left - n, k - 1);
    }
  }

  /** The chunks carry at most the requested bytes, as long as no read gives more than asked for. */
  lemma {:induction false} ReadRepliesBounded(readData: (int, int) -> ReadResult, offset: int, left: int)
    requires ReadsWithin(readData)
    ensures DataBytes(ReadReplies(readData, offset, left)) <= if left > 0 then left else 0
    decreases if left > 0 then left else 0
  {
    if left > 0 {
      var result := readData(offset, left);
      if result.ReadFailed? {
        assert DataBytes([ReadError(result.message)]) == DataBytes([]) + 0;
      } else {
        var n := |result.data|;
        var first := DataChunk(result.data, left - n > 0 && n > 0);
        assert DataBytes([first]) == DataBytes([first][..0]) + n;
        if n > 0 {
          ReadRepliesBounded(readData, offset + n, left - n);
          DataBytesCons(first, ReadReplies(readData, offset + n, left - n));
        } else {
          assert ReadReplies(readData, offset, left) == [first];
        }
      }
    }
  }
  /** A reply of the read loop is what `ReadData` gave. */
  predicate Answers(result: ReadResult, reply: ReadReply)
  {
    match reply
    case DataChunk(data, _) => result == ReadBytes(data)
    case ReadError(message) => result == ReadFailed(message)
  }

  /** The k-th answer comes from reading at the offset advanced by exactly the bytes of the answers before it. */
  lemma {:induction false} ReadRepliesReadAt(readData: (int, int) -> ReadResult, offset: int, left: int, k: nat)
    requires k < |ReadReplies(readData, offset, left)|
    ensures left - DataBytes(ReadReplies(readData, offset, left)[..k]) > 0
    ensures var before := DataBytes(ReadReplies(readData, offset, left)[..k]);
            Answers(readData(offset + before, left - before), ReadReplies(readData, offset, left)[k])
    decreases k
  {
    var rs := ReadReplies(readData, offset, left);
    assert left > 0;
    ReadRepliesStep(readData, offset, left);
    if k == 0 {
      assert rs[..0] == [];
    } else {
      var result := readData(offset, left);
      assert result.ReadBytes?;
      var n := |result.data|;
      assert n != 0;
      var rest := ReadReplies(readData, offset + n, left - n);
      assert rs == [rs[0]] + rest;
      assert rs[..k] == [rs[0]] + rest[..k - 1];
      DataBytesCons(rs[0], rest[..k - 1]);
      ReadRepliesReadAt(readData, offset + n, left - n, k - 1);
    }
  }



  /** The message JavaScript receives for one answer of the read loop. */
  function ReplyMessage(fileSystemId: string, requestId: string, reply: ReadReply): Message
  {
    match reply
    case DataChunk(data, hasMore) => ReadFileDoneResponse(fileSystemId, requestId, data, hasMore)
    case ReadError(message) => FileSystemError(fileSystemId, requestId, message)
  }

  /** The messages of the answers, one each, in order. */
  function ReplyMessages(fileSystemId: string, requestId: string, rs: seq<ReadReply>): (ms: seq<Message>)
  {
    seq(|rs|, k requires 0 <= k < |rs| => ReplyMessage(fileSystemId, requestId, rs[k]))
  }

  /** One turn of the read loop: the answer of the first read, then the loop from where it left off. */
  lemma ReadRepliesStep(readData: (int, int) -> ReadResult, offset: int, left: int)
    requires left > 0
    ensures readData(offset, left).ReadFailed? ==>
              ReadReplies(readData, offset, left) == [ReadError(readData(offset, left).message)]
    ensures readData(offset, left).ReadBytes? ==>
              var data := readData(offset, left).data;
              var n := |data|;
              ReadReplies(readData, offset, left) ==
              [DataChunk(data, left - n > 0 && n > 0)] + ReadReplies(readData, offset + n, if n == 0 then 0 else left - n)
  {
  }

  lemma ReplyMessagesCons(fileSystemId: string, requestId: string, reply: ReadReply, rest: seq<ReadReply>)
    ensures ReplyMessages(fileSystemId, requestId, [reply] + rest) ==
            [ReplyMessage(fileSystemId, requestId, reply)] + ReplyMessages(fileSystemId, requestId, rest)
  {
  }

  lemma AppendThenPrepend(sent: seq<Message>, m: Message, later: seq<Message>)
    ensures (sent + [m]) + later == sent + ([m] + later)
  {
  }

  /** Registering a fresh request and forgetting it again leaves the map as it was. */
  lemma AddThenRemove(m: map<string, ArchiveHandle>, requestId: string, handle: ArchiveHandle)
    requires requestId !in m
    ensures m[requestId := handle] - {requestId} == m
  {
  }

  /** `dictionary.Get(key).AsString()`: the text of a string value, and "" for anything else. */
  function AsString(v: Option<Value>): (s: string)
    ensures v.Some? && v.value.Str? ==> s == v.value.s
    ensures !(v.Some? && v.value.Str?) ==> s == ""
  {
    if v.Some? && v.value.Str? then v.value.s else ""
  }

  class Volume {
    const fileSystemId: string
    /** `worker_reads_in_progress_`: the archives being read, by the request id that opened them. */
    var readsInProgress: map<string, ArchiveHandle>
    /** The messages sent to JavaScript, oldest first. */
    var outbox: seq<Message>

    constructor(fileSystemId: string)
      ensures this.fileSystemId == fileSystemId && readsInProgress == map[] && outbox == []
    {
      this.fileSystemId := fileSystemId;
      readsInProgress := map[];
      outbox := [];
    }

    /** `GetVolumeArchive`: the archive of a request, NULL when none is in progress. */
    function GetVolumeArchive(requestId: string): (r: Option<ArchiveHandle>)
      reads this
      ensures r.Some? <==> requestId in readsInProgress
      ensures r.Some? ==> r.value == readsInProgress[requestId]
    {
      if requestId in readsInProgress then Some(readsInProgress[requestId]) else None
    }

    /**
     * `CreateVolumeArchive`: a reader that does not open sends an error; an
     * archive is registered before `Init`, and removed again, with an error
     * sent, when `Init` fails. The request id must not be in use.
     */
    method CreateVolumeArchive(requestId: string, archiveSize: int, opening: Opening) returns (created: bool)
      requires opening.InitFailed? || opening.Opened? ==> requestId !in readsInProgress
      modifies this
      ensures created <==> opening.Opened?
      ensures opening.Opened? ==>
                readsInProgress == old(readsInProgress)[requestId := ArchiveHandle(archiveSize)] &&
                outbox == old(outbox)
      ensures !opening.Opened? ==> readsInProgress == old(readsInProgress)
      ensures opening.ReaderFailed? ==> outbox == old(outbox) + [FileSystemError(fileSystemId, requestId, READER_OPEN_ERROR)]
      ensures opening.ArchiveNotCreated? ==> outbox == old(outbox)
      ensures opening.InitFailed? ==> outbox == old(outbox) + [FileSystemError(fileSystemId, requestId, opening.message)]
    {
      if opening.ReaderFailed? {
        outbox := outbox + [FileSystemError(fileSystemId, requestId, READER_OPEN_ERROR)];
        return false;
      }
      if opening.ArchiveNotCreated? {
        return false;
      }
      readsInProgress := readsInProgress[requestId := ArchiveHandle(archiveSize)];
      if opening.InitFailed? {
        outbox := outbox + [FileSystemError(fileSystemId, requestId, opening.message)];
        var _ := CleanupVolumeArchive(requestId, false, None);
        AddThenRemove(old(readsInProgress), requestId, ArchiveHandle(archiveSize));
        return false;
      }
      created := true;
    }

    /**
     * `CleanupVolumeArchive`: the read is always forgotten; a failed
     * `Cleanup` (its error text in `cleanupError`) is reported, and the call
     * fails, only when asked to post it.
     */
    method CleanupVolumeArchive(requestId: string, postCleanupError: bool, cleanupError: Option<string>)
      returns (ok: bool)
      requires requestId in readsInProgress
      modifies this
      ensures readsInProgress == old(readsInProgress) - {requestId}
      ensures ok <==> !(postCleanupError && cleanupError.Some?)
      ensures ok ==> outbox == old(outbox)
      ensures !ok ==> outbox == old(outbox) + [FileSystemError(fileSystemId, requestId, cleanupError.value)]
    {
      readsInProgress := readsInProgress - {requestId};
      ok := true;
      if cleanupError.Some? && postCleanupError {
        outbox := outbox + [FileSystemError(fileSystemId, requestId, cleanupError.value)];
        ok := false;
      }
    }

    /**
     * `ReadMetadataCallback`: the headers are inserted, in order, into a tree
     * rooted at `/`; a header error sends that error and no metadata; at the
     * end the archive is cleaned up and the tree sent, unless the cleanup fails.
     * The read is forgotten in every case.
     */
    method ReadMetadataCallback(requestId: string, archiveSize: int, opening: Opening, headers: seq<Header>,
                                end: HeaderEnd, cleanupError: Option<string>)
      requires opening.InitFailed? || opening.Opened? ==> requestId !in readsInProgress
      modifies this
      ensures readsInProgress == old(readsInProgress)
      ensures opening.ReaderFailed? ==> outbox == old(outbox) + [FileSystemError(fileSystemId, requestId, READER_OPEN_ERROR)]
      ensures opening.ArchiveNotCreated? ==> outbox == old(outbox)
      ensures opening.InitFailed? ==> outbox == old(outbox) + [FileSystemError(fileSystemId, requestId, opening.message)]
      ensures opening.Opened? && end.HeaderError? ==>
                outbox == old(outbox) + [FileSystemError(fileSystemId, requestId, end.message)]
      ensures opening.Opened? && end.EndOfArchive? && cleanupError.Some? ==>
                outbox == old(outbox) + [FileSystemError(fileSystemId, requestId, cleanupError.value)]
      ensures opening.Opened? && end.EndOfArchive? && cleanupError.None? ==>
                outbox == old(outbox) + [ReadMetadataDoneResponse(fileSystemId, requestId, BuildMetadata(headers))]
    {
      var created := CreateVolumeArchive(requestId, archiveSize, opening);
      if !created {
        return;
      }
      AddThenRemove(old(readsInProgress), requestId, ArchiveHandle(archiveSize));
      var rootMetadata := ConstructAll(headers);
      if end.HeaderError? {
        outbox := outbox + [FileSystemError(fileSystemId, requestId, end.message)];
        var _ := CleanupVolumeArchive(requestId, false, cleanupError);
        return;
      }
      var ok := CleanupVolumeArchive(requestId, true, cleanupError);
      if !ok {
        return;
      }
      outbox := outbox + [ReadMetadataDoneResponse(fileSystemId, requestId, rootMetadata)];
    }

    /**
     * `OpenFileCallback`: the headers are walked up to the first whose path,
     * with a leading '/', is the requested one; the archive then stays
     * registered for reading. Without a match the end of the headers sends
     * "File not found" and still leaves the archive registered; a header
     * error sends that error and forgets the archive.
     */
    method OpenFileCallback(requestId: string, filePath: string, archiveSize: int, opening: Opening,
                            headers: seq<Header>, end: HeaderEnd, cleanupError: Option<string>)
      requires opening.InitFailed? || opening.Opened? ==> requestId !in readsInProgress
      modifies this
      ensures !opening.Opened? ==> readsInProgress == old(readsInProgress)
      ensures opening.ReaderFailed? ==> outbox == old(outbox) + [FileSystemError(fileSystemId, requestId, READER_OPEN_ERROR)]
      ensures opening.ArchiveNotCreated? ==> outbox == old(outbox)
      ensures opening.InitFailed? ==> outbox == old(outbox) + [FileSystemError(fileSystemId, requestId, opening.message)]
      ensures opening.Opened? && (exists j :: 0 <= j < |headers| && Matches(headers[j], filePath)) ==>
                && outbox == old(outbox) + [OpenFileDoneResponse(fileSystemId, requestId)]
                && readsInProgress == old(readsInProgress)[requestId := ArchiveHandle(archiveSize)]
      ensures opening.Opened? && (forall j :: 0 <= j < |headers| ==> !Matches(headers[j], filePath)) ==>
                && (end.EndOfArchive? ==>
                      && outbox == old(outbox) + [FileSystemError(fileSystemId, requestId,
                                                                  "File not found in archive: " + filePath + ".")]
                      && readsInProgress == old(readsInProgress)[requestId := ArchiveHandle(archiveSize)])
                && (end.HeaderError? ==>
                      && outbox == old(outbox) + [FileSystemError(fileSystemId, requestId, end.message)]
                      && readsInProgress == old(readsInProgress))
    {
      var created := CreateVolumeArchive(requestId, archiveSize, opening);
      if !created {
        return;
      }
      var i := 0;
      while i < |headers|
        invariant 0 <= i <= |headers|
        invariant forall j :: 0 <= j < i ==> !Matches(headers[j], filePath)
      {
        if [PATH_DELIMITER] + headers[i].path == filePath {
          outbox := outbox + [OpenFileDoneResponse(fileSystemId, requestId)];
          return;
        }
        i := i + 1;
      }
      if end.HeaderError? {
        outbox := outbox + [FileSystemError(fileSystemId, requestId, end.message)];
        var _ := CleanupVolumeArchive(requestId, false, cleanupError);
        AddThenRemove(old(readsInProgress), requestId, ArchiveHandle(archiveSize));
        return;
      }
      outbox := outbox + [FileSystemError(fileSystemId, requestId, "File not found in archive: " + filePath + ".")];
    }

    /**
     * `CloseFileCallback`: the archive of the opened file is forgotten and the
     * close answered. The cleanup error is never posted here, so the error
     * branch of the source cannot be taken.
     */
    method CloseFileCallback(requestId: string, openRequestId: string, cleanupError: Option<string>)
      requires openRequestId in readsInProgress
      modifies this
      ensures readsInProgress == old(readsInProgress) - {openRequestId}
      ensures outbox == old(outbox) + [CloseFileDoneResponse(fileSystemId, requestId, openRequestId)]
    {
      var ok := CleanupVolumeArchive(openRequestId, false, cleanupError);
      if !ok {
        assert false;
      }
      outbox := outbox + [CloseFileDoneResponse(fileSystemId, requestId, openRequestId)];
    }

    /**
     * `ReadFileCallback`: reads from the offset until the requested length is
     * delivered, an empty read or an error; every read becomes one message to
     * the read request. The archive stays registered, even on error. The
     * length must be positive and the file open.
     */
    method ReadFileCallback(requestId: string, dictionary: Message, readData: (int, int) -> ReadResult)
      requires GetInt64FromString(dictionary, LENGTH) > 0
      requires AsString(Get(dictionary, OPEN_REQUEST_ID)) in readsInProgress
      modifies this
      ensures readsInProgress == old(readsInProgress)
      ensures outbox == old(outbox) + ReplyMessages(fileSystemId, requestId,
                                                    ReadReplies(readData, GetInt64FromString(dictionary, OFFSET),
                                                                GetInt64FromString(dictionary, LENGTH)))
    {
      var openRequestId := AsString(Get(dictionary, OPEN_REQUEST_ID));
      var offset := GetInt64FromString(dictionary, OFFSET);
      var length := GetInt64FromString(dictionary, LENGTH);
      var volumeArchive := GetVolumeArchive(openRequestId);
      assert volumeArchive.Some?;
      SendFileData(requestId, offset, length, readData);
    }

    /** The read loop of `ReadFileCallback`, from `offset` for `length` bytes. */
    method SendFileData(requestId: string, offset: int, length: int, readData: (int, int) -> ReadResult)
      modifies this`outbox
      ensures outbox == old(outbox) + ReplyMessages(fileSystemId, requestId, ReadReplies(readData, offset, length))
    {
      var position := offset;
      var leftLength := length;
      while leftLength > 0
        invariant outbox + ReplyMessages(fileSystemId, requestId, ReadReplies(readData, position, leftLength)) ==
                  old(outbox) + ReplyMessages(fileSystemId, requestId, ReadReplies(readData, offset, length))
        decreases leftLength
      {
        var readBytes, done := SendRead(requestId, position, leftLength, readData);
        if done {
          return;
        }
        leftLength := leftLength - readBytes;
        position := position + readBytes;
      }
    }

    /**
     * One turn of the read loop: the data read, or the error, is sent; the
     * loop goes on after a non-empty read, with that many bytes fewer to go.
     */
    method SendRead(requestId: string, position: int, leftLength: int, readData: (int, int) -> ReadResult)
      returns (readBytes: int, done: bool)
      requires leftLength > 0
      modifies this`outbox
      ensures !done ==> readBytes > 0
      ensures outbox + ReplyMessages(fileSystemId, requestId,
                                     ReadReplies(readData, position + readBytes, if done then 0 else leftLength - readBytes)) ==
              old(outbox) + ReplyMessages(fileSystemId, requestId, ReadReplies(readData, position, leftLength))
    {
      var result := readData(position, leftLength);
      ReadRepliesStep(readData, position, leftLength);
      var reply;
      if result.ReadFailed? {
        reply := ReadError(result.message);
        readBytes, done := 0, true;
      } else {
        readBytes := |result.data|;
        var hasMoreData := leftLength - readBytes > 0 && readBytes > 0;
        reply := DataChunk(result.data, hasMoreData);
        done := readBytes == 0;
      }
      ghost var later := ReadReplies(readData, position + readBytes, if done then 0 else leftLength - readBytes);
      assert ReadReplies(readData, position, leftLength) == [reply] + later;
      ReplyMessagesCons(fileSystemId, requestId, reply, later);
      AppendThenPrepend(outbox, ReplyMessage(fileSystemId, requestId, reply),
                        ReplyMessages(fileSystemId, requestId, later));
      outbox := outbox + [ReplyMessage(fileSystemId, requestId, reply)];
    }

    /** `ReadChunkDone`: a chunk for a read no longer in progress is dropped; nothing here changes. */
    method ReadChunkDone(requestId: string, buffer: seq<byte>, readOffset: int) returns (delivered: bool)
      ensures delivered <==> requestId in readsInProgress
    {
      var volumeArchive := GetVolumeArchive(requestId);
      delivered := volumeArchive.Some?;
    }

    /** `ReadChunkError`: likewise, the error reaches only a read in progress. */
    method ReadChunkError(requestId: string) returns (delivered: bool)
      ensures delivered <==> requestId in readsInProgress
    {
      var volumeArchive := GetVolumeArchive(requestId);
      delivered := volumeArchive.Some?;
    }
  }
}
