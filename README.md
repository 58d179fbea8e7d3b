# Wicked Good Unarchiver, modelled in Dafny

Wicked Good Unarchiver is a Chrome extension that mounts archives as read-only
file systems. JavaScript serves the browser's file system provider, and a
Native Client module reads the archive with libarchive. The two sides talk
through dictionaries of string keys: every message names an operation, a file
system id and a request id. Request ids and 64-bit numbers travel as decimal
text. The JavaScript side asks for metadata, file opens, closes and reads. The
native side answers them, and asks JavaScript for chunks of the archive as
libarchive needs them.

This project models the bookkeeping of both trees of the repository: the
current extension in `unpacker/`, and the earlier prototype in `unrar/`. It
covers the request tables and maps, the metadata tree and the path lookup in
it, the read loops and the stream readers' offset arithmetic, the header
cache, and the message builders and parsers. Code that updates state in place
is modelled as Dafny classes whose methods state their whole new state.
Builders and parsers are modelled as functions. Lemmas relate them to each
other: round trips, invariants and reference definitions.

| module | file | models |
|---|---|---|
| `Wrappers` | wrappers.dfy | `Option` |
| `Decimal` | decimal.dfy | canonical decimal text of integers and its parser |
| `Strings` | strings.dfy | `find`/`indexOf`, `split` and `join` |
| `Metadata` | metadata.dfy | the metadata entry and the ordered dictionary of children |
| `Wire` | wire.dfy | messages as maps from keys to values; JavaScript `Number` and truthiness |
| `JsRequest` | js_request.dfy | unpacker/js/request.js |
| `Decompressor` | decompressor.dfy | unpacker/js/decompressor.js |
| `JsVolume` | js_volume.dfy | unpacker/js/volume.js |
| `App` | app_js.dfy | unpacker/js/app.js |
| `NativeRequest` | native_request.dfy | unpacker/cpp/request.cc, unpacker/cpp/request.h |
| `NativeMetadata` | native_metadata.dfy | `CreateEntry` and `ConstructMetadata` of unpacker/cpp/volume.cc (also unrar/cpp/volume.cc) |
| `NativeVolume` | native_volume.dfy | the `Volume` class of unpacker/cpp/volume.cc |
| `StreamReader` | stream_reader.dfy | unpacker/cpp/volume_reader_javascript_stream.cc |
| `HeaderCache` | header_cache.dfy | unpacker/cpp/header_cache.cc |
| `NativeModule` | native_module.dfy | unpacker/cpp/module.cc |
| `UnrarRequest` | unrar_request.dfy | unrar/js/request.js |
| `UnrarVolume` | unrar_volume.dfy | unrar/js/volume.js |
| `UnrarApp` | unrar_app.dfy | unrar/js/app.js |
| `UnrarNativeVolume` | unrar_native_volume.dfy | the `Volume` class of unrar/cpp/volume.cc |
| `UnrarStreamReader` | unrar_stream_reader.dfy | unrar/cpp/volume_reader_javascript_stream.cc |

Conventions used throughout:

- An asynchronous callback of the source is its own method (an event).
- The outcome of each host or library call (storage, `retainEntry`,
  `restoreEntry`, `mount`, `unmount`, libarchive's `Init`, `GetNextHeader`,
  `ReadData` and `Cleanup`) is a parameter.
- Messages a component sends are appended to an `outbox` field, or returned.
- A `console.assert` or `PP_DCHECK` on a caller's input becomes a `requires`. Where JavaScript
  would throw a `TypeError`, the model has an explicit outcome instead.
- A `Blocked` outcome stands for a thread waiting on a condition variable.
  It resumes after a signal exactly as a new call would.
- The source's files come from different revisions, and their call shapes
  do not always agree. Each file is modelled against its own call shapes.
  - `decompressor.js` takes `encoding` and `index` parameters that
    `volume.js` does not pass.
  - `app.js` calls `readMetadata` where `volume.js` defines `initialize`.
  - The JavaScript operation numbers of the current extension differ from the
    native enum from 5 on. The prototype's two tables agree, and
    `UnrarRequest.OperationsMatchNative` states it.

## Model

| member | source | states |
|---|---|---|
| Decompressor.RemainingRequests | unpacker/js/decompressor.js:158-223 | a request stays in the table exactly when its reply is a chunk or passphrase request, an open-file reply, or a read-file reply with more data; nothing is added; every other record survives except, for a close-file reply, the open request it names, which is gone |
| Decompressor.Notification | unpacker/js/decompressor.js:158-223 | chunk and passphrase requests call no callback; metadata, open, close and read replies call the request's onSuccess (with the metadata, or with the buffer and has-more flag); an error or unknown operation calls onError with 'FAILED' |
| Decompressor.ChunkRange | unpacker/js/decompressor.js:232-246 | the served range starts at the requested offset, is non-empty, ends inside the blob and is the requested length unless that runs past the end, where it stops at the end |
| Decompressor.ChunkReplyServesBlob | unpacker/js/decompressor.js:232-266 | a successful chunk reply echoes the requested offset and carries exactly the blob's bytes of the served range (`Decompressor.ChunkRange`) |
| Decompressor.Decompressor.constructor | unpacker/js/decompressor.js:17-50 | a new volume conversation has no request in flight and has sent nothing |
| Decompressor.Decompressor.HasRequestsInProgressIff | unpacker/js/decompressor.js:55-57 | `hasRequestsInProgress` holds exactly when some request id is in the table |
| Decompressor.Decompressor.AddRequest | unpacker/js/decompressor.js:70-81 | for an id not in flight, exactly that record is registered and exactly that one message is posted |
| Decompressor.Decompressor.ReadMetadata | unpacker/js/decompressor.js:94-101 | registers the request and posts a read-metadata request with the blob size |
| Decompressor.Decompressor.OpenFile | unpacker/js/decompressor.js:111-115 | registers the request and posts an open-file request with index, encoding and blob size |
| Decompressor.Decompressor.CloseFile | unpacker/js/decompressor.js:125-131 | registers the request and posts a close-file request naming the open request |
| Decompressor.Decompressor.ReadFile | unpacker/js/decompressor.js:144-148 | registers the request and posts a read-file request with offset and length |
| Decompressor.Decompressor.ProcessMessage | unpacker/js/decompressor.js:158-223 | the new table is `RemainingRequests` of the old one and the callback call is `Notification` of the request's record; only a chunk request posts anything, the chunk reply |
| Decompressor.Decompressor.ReadChunk | unpacker/js/decompressor.js:232-266 | posts the chunk reply (bytes and offset, or a chunk error when reading fails) and leaves the table as it was |
| Decompressor.Decompressor.OnPassphrase | unpacker/js/decompressor.js:275-293 | a passphrase is sent back in a passphrase-done response; a failed prompt sends a passphrase error and asks for a forced unmount; the table is unchanged |
| JsRequest.ToText | unpacker/js/request.js:85 | `toString()` of an integer is canonical decimal text that reads back as the same number |
| JsRequest.CreateBasic | unpacker/js/request.js:81-87 | exactly the three mandatory fields: the operation, the file system id, and the request id as text that reads back as that id |
| JsRequest.ReadMetadataRequest | unpacker/js/request.js:97-105 | the basic message plus exactly `encoding` and `archive_size`, the size as decimal text |
| JsRequest.ReadChunkDoneResponse | unpacker/js/request.js:118-125 | the basic message plus exactly the unchanged buffer and the offset as decimal text |
| JsRequest.ReadChunkErrorResponse | unpacker/js/request.js:135-138 | only the mandatory fields |
| JsRequest.ReadPassphraseDoneResponse | unpacker/js/request.js:148-155 | the basic message plus exactly `passphrase` |
| JsRequest.ReadPassphraseErrorResponse | unpacker/js/request.js:165-169 | only the mandatory fields |
| JsRequest.CloseVolumeRequest | unpacker/js/request.js:177-180 | only the mandatory fields, with the request id the text "-1" |
| JsRequest.OpenFileRequest | unpacker/js/request.js:190-198 | the basic message plus exactly `index` and `archive_size` as decimal text and `encoding` |
| JsRequest.CloseFileRequest | unpacker/js/request.js:207-213 | the basic message plus exactly `open_request_id` as decimal text |
| JsRequest.ReadFileRequest | unpacker/js/request.js:224-233 | the basic message plus exactly `open_request_id`, `offset` and `length` as decimal text |
| JsRequest.OperationsDistinct | unpacker/js/request.js:51-70 | a record of the table, checked by evaluation: the seventeen operation tags, FILE_SYSTEM_ERROR being -1, are pairwise distinct |
| JsVolume.CorrectMetadata | unpacker/js/volume.js:12-32 | the size becomes the number its text denotes and the modification time that many seconds in milliseconds; type and name are kept, a file keeps its `entries`, and a directory keeps exactly the same child names |
| JsVolume.FindCorrected | unpacker/js/volume.js:25-31 | in a corrected directory the child under any name is the corrected old child, and a missing name stays missing |
| JsVolume.CorrectMetadataAt | unpacker/js/volume.js:12-32 | correction reaches every depth: the entry at any path through directories of the corrected tree is the corrected entry at that path |
| JsVolume.PathSegmentsRoot | unpacker/js/volume.js:246-258 | the path "/" names the root: no names are followed |
| JsVolume.PathSegmentsOfJoin | unpacker/js/volume.js:246-258 | "/a/b" follows exactly the names a, b |
| JsVolume.PathSegmentsOfJoinTrailing | unpacker/js/volume.js:246-258 | "/a/b/" follows the same names: one trailing empty piece is dropped |
| JsVolume.ResolveSound | unpacker/js/volume.js:262-270 | an entry the lookup finds is the entry of the tree at that path |
| JsVolume.ResolveComplete | unpacker/js/volume.js:262-270 | through directories the lookup finds the tree's entry at the path, and gives null exactly when there is none |
| JsVolume.ResolveStep | unpacker/js/volume.js:263-268 | after a run of directories, the lookup goes on from the entry they lead to |
| JsVolume.ResolveThroughFileThrows | unpacker/js/volume.js:264-267 | a file reached through directories, used as the parent of the last name, makes the lookup throw (`.entries` of a file) |
| JsVolume.PlanRead | unpacker/js/volume.js:228-233 | nothing is asked of the decompressor exactly when the offset is at or past the end or the length is 0; otherwise the length asked for is positive, at most the requested one, inside the file, and cut only at its end |
| JsVolume.Values | unpacker/js/volume.js:151-154 | the listing holds the dictionary's entries in stored order |
| JsVolume.Volume.constructor | unpacker/js/volume.js:44-78 | no metadata yet; the open files are the saved ones when given, else none |
| JsVolume.Volume.IsReady | unpacker/js/volume.js:83-85 | ready exactly when metadata is stored; a new volume is not ready (`JsVolume.Volume.constructor`) and one is after `JsVolume.Volume.OnMetadataRead`, the only method that stores metadata |
| JsVolume.Volume.InUse | unpacker/js/volume.js:90-93 | in use exactly when some request is in the decompressor's table or some file is open |
| JsVolume.Volume.Initialize | unpacker/js/volume.js:100-102 | the metadata is asked for under the default request id -1 |
| JsVolume.Volume.OnMetadataRead | unpacker/js/volume.js:102-107 | the volume keeps the corrected metadata and becomes ready; open files are untouched |
| JsVolume.Volume.GetEntryMetadata | unpacker/js/volume.js:245-271 | the loop's result is the lookup `Resolve` of the stored tree along `PathSegments` of the path |
| JsVolume.Volume.OnGetMetadataRequested | unpacker/js/volume.js:119-127 | the found entry is returned; a missing one gives NOT_FOUND; a throwing lookup throws |
| JsVolume.Volume.OnReadDirectoryRequested | unpacker/js/volume.js:137-157 | a missing path gives NOT_FOUND, a file NOT_A_DIRECTORY, a directory its children in stored order with hasMore false, each iff |
| JsVolume.Volume.OnOpenFileRequested | unpacker/js/volume.js:166-182 | a mode other than READ or create gives INVALID_OPERATION with no call; a found path forwards the open, a missing one gives NOT_FOUND |
| JsVolume.Volume.OnOpenFileDone | unpacker/js/volume.js:178-180 | the open is recorded under its request id; nothing else changes |
| JsVolume.Volume.OnCloseFileRequested | unpacker/js/volume.js:191-204 | an unknown open request gives INVALID_OPERATION, a known one forwards the close, each iff |
| JsVolume.Volume.OnCloseFileDone | unpacker/js/volume.js:200-202 | exactly that open file is forgotten |
| JsVolume.Volume.OnReadFileRequested | unpacker/js/volume.js:214-237 | an unknown handle gives INVALID_OPERATION; otherwise the read is answered as `PlanRead` says: an empty buffer with hasMore false, or the read forwarded with the clamped length |
| UnrarVolume.NonEmptyPieces | unrar/js/volume.js:194-198 | only non-empty pieces are kept, and never more pieces than there were |
| UnrarVolume.NonEmptyPiecesStep | unrar/js/volume.js:195-198 | each step of the filter appends the piece exactly when it is not empty |
| UnrarVolume.PathNamesOfJoin | unrar/js/volume.js:191-198 | however many delimiters surround or separate the names, the path selects exactly its non-empty names |
| UnrarVolume.NonEmptyPiecesKeeps | unrar/js/volume.js:194-198 | names none of which is empty are kept as they are |
| UnrarVolume.DescendComplete | unrar/js/volume.js:202-209 | through directories the walk gives the tree's entry at the path, and `undefined` exactly when there is none |
| UnrarVolume.DescendSound | unrar/js/volume.js:202-209 | an entry the walk finds is the entry of the tree at that path |
| UnrarVolume.DescendIntoFileThrows | unrar/js/volume.js:203-206 | walking on from a file reached through directories throws, because the test reads `i` and `limit`, which are not declared |
| UnrarVolume.Volume.constructor | unrar/js/volume.js:43-66 | no metadata yet |
| UnrarVolume.Volume.IsReady | unrar/js/volume.js:71-73 | ready exactly when metadata is stored; a new volume is not ready and one is after `UnrarVolume.Volume.OnMetadataRead` |
| UnrarVolume.Volume.InUse | unrar/js/volume.js:78-80 | in use exactly when some request is in the decompressor's table; open files play no part |
| UnrarVolume.Volume.ReadMetadata | unrar/js/volume.js:90-94 | the request id is -1 when none is given or it is falsy, 0 included, and the given id otherwise |
| UnrarVolume.Volume.OnMetadataRead | unrar/js/volume.js:94-99 | the volume keeps the corrected metadata and becomes ready |
| UnrarVolume.Volume.GetEntryMetadata | unrar/js/volume.js:190-210 | the two loops give the walk `Descend` of the stored tree along the non-empty names of the path |
| UnrarVolume.Volume.OnGetMetadataRequested | unrar/js/volume.js:111-118 | the found entry is returned; a missing one gives NOT_FOUND; a throwing walk throws |
| UnrarVolume.Volume.OnReadDirectoryRequested | unrar/js/volume.js:127-146 | a missing path gives NOT_FOUND, a file NOT_A_DIRECTORY, a directory its children in stored order with hasMore false, each iff |
| UnrarVolume.Volume.OnFileOperationRequested | unrar/js/volume.js:155-182 | opening, closing and reading always fail with INVALID_OPERATION |
| Metadata.Find | unpacker/cpp/volume.cc:67-68 | `Get` on the children dictionary finds a value exactly when the key is present, that value is stored under the key, and with unique keys it is the one stored there |
| Metadata.Put | unpacker/cpp/volume.cc:100 | after `Set` the key holds the new entry, every other key is looked up as before, an existing key keeps its place and a new one is appended, and keys stay unique |
| NativeMetadata.CreateEntry | unpacker/cpp/volume.cc:23-43 | the entry has the given type and name, size and modification time as decimal text denoting the given numbers, and an empty `entries` dictionary exactly when it is a directory |
| NativeMetadata.ConstructMetadata | unpacker/cpp/volume.cc:45-102 | the parent keeps its own attributes, an empty path changes nothing, any other path gives it an `entries` dictionary, unique names stay unique, and only the child under the path's first name changes |
| NativeMetadata.LeafCase | unpacker/cpp/volume.cc:60-73 | a path without '/' is stored under the parent with fresh attributes and the children of the entry it replaces |
| NativeMetadata.TrailingCase | unpacker/cpp/volume.cc:74-96 | a path `name/` keeps the child `name`, or makes it a new directory of size 0 with the header's time, and stores nothing below it |
| NativeMetadata.DeepCase | unpacker/cpp/volume.cc:74-101 | when the rest of the path is placed below the child `name`, storing that child places the whole path below the parent |
| NativeMetadata.ConstructMetadataPlacesEntry | unpacker/cpp/volume.cc:45-102 | for every non-empty path and tree, every name of the path exists afterwards; each directory on the way is the one already there or a new directory of size 0 with the header's time; the last name carries the header's type, size and time and keeps the children of the entry it replaces; a path ending in '/' ends on a directory on the way |
| Decimal.DigitChar | unpacker/cpp/volume.cc:31-33 | each digit value is written as a digit character that reads back as that value |
| Decimal.NatToString | unpacker/cpp/volume.cc:31-33 | the shortest digit text of a natural number, which denotes it and starts with '0' only for 0 |
| Decimal.IntToString | unpacker/js/request.js:85 | `toString()` and `ss << n` write canonical decimal text that parses back to the same integer |
| Decimal.NatTextRoundTrip | unpacker/js/volume.js:22 | canonical digit text is printed back unchanged from the value it denotes |
| Decimal.DecimalRoundTrip | unpacker/js/volume.js:22 | `parseInt` then `toString` gives back canonical decimal text, so each value has one decimal form |
| NativeRequest.Int32Of | unpacker/cpp/request.cc:48 | `static_cast<int32_t>` gives an int32 congruent to the value modulo 2^32, and leaves int32 values unchanged |
| NativeRequest.CreateBasicRequest | unpacker/cpp/request.cc:12-20 | exactly the three mandatory fields, set to the given operation, file system id and request id |
| NativeRequest.ReadMetadataDoneResponse | unpacker/cpp/request.cc:24-32 | the mandatory fields plus exactly `metadata` |
| NativeRequest.ReadChunkRequest | unpacker/cpp/request.cc:34-50 | the mandatory fields plus exactly the offset as decimal text and the length cut to an int32 |
| NativeRequest.OpenFileDoneResponse | unpacker/cpp/request.cc:52-56 | only the mandatory fields |
| NativeRequest.CloseFileDoneResponse | unpacker/cpp/request.cc:58-66 | the mandatory fields plus exactly `open_request_id` |
| NativeRequest.ReadFileDoneResponse | unpacker/cpp/request.cc:68-78 | the mandatory fields plus exactly the data buffer and the `has_more_data` bool |
| NativeRequest.FileSystemError | unpacker/cpp/request.cc:80-88 | the mandatory fields, operation -1, plus exactly the `error` text |
| NativeRequest.SkipSpace | unpacker/cpp/request.cc:94 | `>>` skips exactly the leading white space: what is left is a suffix that starts with no space |
| NativeRequest.DigitRun | unpacker/cpp/request.cc:94 | the longest run of digits at the start of the text |
| NativeRequest.Clamp64 | unpacker/cpp/request.cc:94 | an out-of-range value becomes the nearest int64 bound; an int64 value is kept |
| NativeRequest.StreamInt64 | unpacker/cpp/request.cc:90-96 | whatever the text, the value read is an int64 |
| NativeRequest.GetInt64FromString | unpacker/cpp/request.cc:90-96 | an int64, and 0 for a missing field, whose `AsString` is empty |
| NativeRequest.StreamInt64RoundTrip | unpacker/cpp/request.cc:90-96 | reading back the decimal text of any int64 gives that int64 |
| NativeRequest.ReadFileRequestFieldsParse | unpacker/js/request.js:224-233 | the offset and length JavaScript writes into a read-file request are read back by the module as the same numbers |
| UnrarRequest.OperationsMatchNative | unrar/js/request.js:38-47 | a record of the two tables, checked by evaluation: the prototype's JavaScript operation numbers equal those of its native enum (unrar/cpp/request.h) |
| NativeVolume.RootEntry | unpacker/cpp/volume.cc:297 | the metadata walk starts from a directory named `/` with size 0, time 0 and no children |
| NativeVolume.ConstructAll | unpacker/cpp/volume.cc:300-318 | the header loop inserts every header, in order, into the tree: its result is the tree of all the headers |
| NativeVolume.BuildMetadataRoot | unpacker/cpp/volume.cc:297-318 | whatever the headers, the tree sent is still the root `/` with size and time 0, a directory, with unique child names |
| NativeVolume.BuildMetadataPlacesLast | unpacker/cpp/volume.cc:316-317 | each header with a path is placed, with every missing directory on the way, in the tree of the headers before it |
| NativeVolume.Volume.constructor | unpacker/cpp/volume.cc:171-196 | a volume starts with no read in progress and nothing sent |
| NativeVolume.Volume.GetVolumeArchive | unpacker/cpp/volume.cc:519-525 | the archive of a request in progress, and none (NULL) exactly when the id is not in the map |
| NativeVolume.Volume.CreateVolumeArchive | unpacker/cpp/volume.cc:453-489 | a reader that does not open sends an error; the id, which must be free, is inserted before `Init` and erased again with the `Init` error sent; success registers exactly that id |
| NativeVolume.Volume.CleanupVolumeArchive | unpacker/cpp/volume.cc:491-513 | the id is always erased; the call fails, with the cleanup error sent, exactly when asked to post it and the cleanup failed |
| NativeVolume.Volume.ReadMetadataCallback | unpacker/cpp/volume.cc:289-327 | a header error sends that error and no metadata; at the end the cleanup error, or the tree of all the headers, is sent; the map ends as it began |
| NativeVolume.Volume.OpenFileCallback | unpacker/cpp/volume.cc:329-365 | a header whose path with a leading `/` is the requested one answers open-done and keeps the archive; no match sends "File not found in archive" or the header error |
| NativeVolume.Volume.CloseFileCallback | unpacker/cpp/volume.cc:367-388 | exactly the opened file's archive is forgotten and close-done sent; the error branch cannot be taken |
| NativeVolume.Volume.ReadFileCallback | unpacker/cpp/volume.cc:390-451 | the length must be positive and the file open; the messages sent are those of the read loop at the parsed offset and length; the map is untouched |
| NativeVolume.Volume.SendFileData | unpacker/cpp/volume.cc:413-450 | the loop sends exactly one message per answer of `ReadReplies`, in order |
| NativeVolume.Volume.SendRead | unpacker/cpp/volume.cc:413-449 | one turn sends the first answer; the loop goes on only after a non-empty read, with that many bytes fewer |
| NativeVolume.ReadRepliesStep | unpacker/cpp/volume.cc:413-449 | a failed read gives one error answer; a read of n bytes gives a chunk with `has_more_data` = (left − n > 0 and n > 0), followed by the loop from offset + n only when n > 0 |
| NativeVolume.ReadRepliesEnd | unpacker/cpp/volume.cc:424-449 | with bytes to read, the last answer is an error or a chunk with `has_more_data` false |
| NativeVolume.ReadRepliesMore | unpacker/cpp/volume.cc:437-444 | every answer but the last is a chunk announcing more data |
| NativeVolume.ReadRepliesBounded | unpacker/cpp/volume.cc:413-450 | when no read gives more than asked for, the chunks carry at most the requested length in all |
| NativeVolume.ReadRepliesReadAt | unpacker/cpp/volume.cc:413-447 | the k-th read is made at the offset advanced by exactly the bytes of the answers before it, for the bytes still left |
| NativeVolume.DataBytesCons | unpacker/cpp/volume.cc:446-447 | the bytes of a run of answers are those of the first one plus those of the rest |
| NativeVolume.ReplyMessagesCons | unpacker/cpp/volume.cc:437-444 | the messages of a run of answers are the first answer's message followed by those of the rest |
| NativeVolume.AddThenRemove | unpacker/cpp/volume.cc:466-500 | inserting a free id and erasing it again leaves the map of reads as it was |
| NativeVolume.AsString | unpacker/cpp/volume.cc:393-394 | `AsString` gives the text of a string value and "" for anything else |
| NativeVolume.Volume.ReadChunkDone | unpacker/cpp/volume.cc:245-266 | a chunk is delivered exactly when its request id is in progress, and is otherwise dropped |
| NativeVolume.Volume.ReadChunkError | unpacker/cpp/volume.cc:268-287 | a chunk error is delivered exactly when its request id is in progress |
| NativeModule.OperationOf | unpacker/cpp/module.cc:111-112 | `AsInt` of the operation: the integer stored there, otherwise 0 |
| NativeModule.ChunkOf | unpacker/cpp/module.cc:203-204 | the bytes of the chunk field when it holds an array buffer, none otherwise |
| NativeModule.Instance.constructor | unpacker/cpp/module.cc:93-96 | an instance starts with no volume and nothing sent |
| NativeModule.Instance.HandleMessage | unpacker/cpp/module.cc:107-163 | every operation does what its case does: metadata reads create the volume, chunk messages for a missing volume are ignored, file operations are posted, CLOSE_VOLUME erases exactly that id and is ignored for an id with no volume (the corrected `CloseVolume`), anything else does nothing |
| NativeModule.CloseVolumeAsWritten | unpacker/cpp/module.cc:152-157 | as written, CLOSE_VOLUME erases a registered id, and is undefined (a delete through `end()`) exactly when the id is not registered |
| NativeModule.CloseVolume | unpacker/cpp/module.cc:152-157 | the corrected close: the id is gone afterwards, every other volume is kept, an unknown id changes nothing, and wherever the code as written is defined the two agree |
| NativeModule.CloseAfterFailedRestore | unpacker/js/app.js:218-227 | after a restart with nothing stored, a restore's forced unmount posts a close-volume request for an id a just-started instance never registered: the close as written is undefined there, the corrected one leaves no volume |
| NativeModule.Instance.ReadMetadata | unpacker/cpp/module.cc:174-196 | the id must be free; a worker that does not start sends an error and registers nothing; otherwise a fresh volume is registered under exactly that id and the read posted |
| NativeModule.Instance.ReadChunkDone | unpacker/cpp/module.cc:198-214 | a chunk for a missing volume is ignored; otherwise it goes to the volume, delivered exactly when the request is in progress there |
| NativeModule.Instance.ReadChunkError | unpacker/cpp/module.cc:216-224 | likewise for a chunk error |
| StreamReader.ReadAheadRequest | unpacker/cpp/volume_reader_javascript_stream.cc:199-210 | no request at or past the end; otherwise one, at the offset, for the length asked for cut short at the end of the archive |
| StreamReader.SkipIsForwardSeek | unpacker/cpp/volume_reader_javascript_stream.cc:150-192 | a count that is not negative is skipped exactly when seeking that far from the current offset is accepted, to the same offset; a negative count is never skipped |
| StreamReader.SeekBack | unpacker/cpp/volume_reader_javascript_stream.cc:150-175 | every accepted seek can be undone by an accepted seek back from the new offset |
| StreamReader.JavaScriptStream.constructor | unpacker/cpp/volume_reader_javascript_stream.cc:19-44 | offset 0, no data, no error, and one read ahead of min(10 KiB, archive size), none for an empty archive |
| StreamReader.JavaScriptStream.ReadAhead | unpacker/cpp/volume_reader_javascript_stream.cc:199-210 | exactly the chunk `ReadAheadRequest` gives is asked for, and the data is no longer available unless the offset is at the end |
| StreamReader.JavaScriptStream.SetBufferAndSignal | unpacker/cpp/volume_reader_javascript_stream.cc:59-75 | a chunk read at another offset than the current one is ignored; otherwise it fills the read-ahead buffer and makes data available |
| StreamReader.JavaScriptStream.ReadErrorSignal | unpacker/cpp/volume_reader_javascript_stream.cc:77-83 | the error flag is set |
| StreamReader.JavaScriptStream.Open | unpacker/cpp/volume_reader_javascript_stream.cc:86-88 | always `ARCHIVE_OK` |
| StreamReader.JavaScriptStream.Close | unpacker/cpp/volume_reader_javascript_stream.cc:195-197 | always `ARCHIVE_OK` |
| StreamReader.JavaScriptStream.Read | unpacker/cpp/volume_reader_javascript_stream.cc:90-148 | 0 at or past the end; without data, `ARCHIVE_FATAL` after an error and a wait otherwise; with data, min(buffer length, bytes asked) bytes of the buffer, offset advanced by exactly that, buffers swapped and the next chunk read ahead |
| StreamReader.JavaScriptStream.Seek | unpacker/cpp/volume_reader_javascript_stream.cc:150-175 | `ARCHIVE_FATAL` and nothing changed exactly when `whence` is unknown or the target is outside [0, archive size]; otherwise the offset is set to the target, returned, and read ahead from |
| StreamReader.JavaScriptStream.Skip | unpacker/cpp/volume_reader_javascript_stream.cc:177-192 | 0 and nothing changed for a negative count or one past the end; otherwise the offset advances by the count, which is returned, and is read ahead from |
| HeaderCache.CacheEntry | unpacker/cpp/header_cache.cc:15-22 | the entry holds the first min(size, 512) bytes of the buffer |
| HeaderCache.CacheEntryOfShortHeader | unpacker/cpp/header_cache.cc:17-21 | a header of at most 512 bytes is kept whole |
| HeaderCache.Added | unpacker/cpp/header_cache.cc:53-56 | a full cache is unchanged; otherwise the offset's entry is added and every other entry kept |
| HeaderCache.AddedAllKeeps | unpacker/cpp/header_cache.cc:45-67 | a cached header is returned unchanged through any later adds at other offsets |
| HeaderCache.AddedAllBounded | unpacker/cpp/header_cache.h:18-29 | however many headers are added the cache holds at most 500 000, and once full it never changes |
| HeaderCache.Cache.constructor | unpacker/cpp/header_cache.h:71 | a cache starts empty |
| HeaderCache.Cache.GetHeader | unpacker/cpp/header_cache.cc:59-67 | the cached bytes, with their size, and NULL exactly for an offset never added; the cache is not changed |
| HeaderCache.Cache.AddHeader | unpacker/cpp/header_cache.cc:45-57 | the offset must be non-negative and new and the size positive; unless full, the header's first min(size, 512) bytes are cached at the offset and every other offset is untouched |
| UnrarNativeVolume.RegisterThenForget | unrar/cpp/volume.cc:248-262 | inserting an id and erasing it again forgets the id, whether or not it was taken before |
| UnrarNativeVolume.Volume.constructor | unrar/cpp/volume.cc:133-138 | a volume starts with no read in progress and nothing sent |
| UnrarNativeVolume.Volume.GetJavaScriptVolumeReader | unrar/cpp/volume.cc:26-47 | the reader of a read in progress, nothing sent; for an unknown id a "No VolumeReader" error is sent and there is no reader |
| UnrarNativeVolume.Volume.ReadChunkDone | unrar/cpp/volume.cc:161-169 | the chunk reaches the reader of a read in progress, whatever its offset; an unknown id sends the "No VolumeReader" error and signals nothing |
| UnrarNativeVolume.Volume.ReadChunkError | unrar/cpp/volume.cc:171-183 | the reader of a read in progress gets the error flag and nothing else changes; an unknown id sends the "No VolumeReader" error |
| UnrarNativeVolume.Volume.CreateVolumeArchive | unrar/cpp/volume.cc:227-257 | a fresh reader at offset 0 is inserted before `Init`, unless the id is taken; a failed `Init` sends its error and erases the id |
| UnrarNativeVolume.Volume.CleanupVolumeArchive | unrar/cpp/volume.cc:259-274 | the id is always erased; the call fails, with the cleanup error sent, exactly when asked to post it and the cleanup failed |
| UnrarNativeVolume.Volume.ReadMetadataCallback | unrar/cpp/volume.cc:185-225 | the same tree as the current extension is built from the headers and sent, or the `Init`, header or cleanup error; the request id is no longer in progress afterwards |
| UnrarStreamReader.JavaScriptStream.constructor | unrar/cpp/volume_reader_javascript_stream.cc:14-25 | offset 0, no data, no error and nothing asked for yet |
| UnrarStreamReader.JavaScriptStream.SetBufferAndSignal | unrar/cpp/volume_reader_javascript_stream.cc:32-44 | any chunk becomes the buffer and makes data available |
| UnrarStreamReader.JavaScriptStream.ReadErrorSignal | unrar/cpp/volume_reader_javascript_stream.cc:46-52 | the error flag is set |
| UnrarStreamReader.JavaScriptStream.Open | unrar/cpp/volume_reader_javascript_stream.cc:55-57 | always `ARCHIVE_OK` |
| UnrarStreamReader.JavaScriptStream.Close | unrar/cpp/volume_reader_javascript_stream.cc:111-113 | always `ARCHIVE_OK` |
| UnrarStreamReader.JavaScriptStream.Read | unrar/cpp/volume_reader_javascript_stream.cc:59-86 | 0 at or past the end; otherwise a request for exactly the bytes asked at the offset, data no longer available, then `ARCHIVE_FATAL` after an error or a wait |
| UnrarStreamReader.JavaScriptStream.Await | unrar/cpp/volume_reader_javascript_stream.cc:70-85 | with data, the whole buffer is handed out and the offset advances by its full length; without, an error fails the read and anything else keeps waiting |
| UnrarStreamReader.JavaScriptStream.Seek | unrar/cpp/volume_reader_javascript_stream.cc:88-103 | the offset becomes the target of SET, CUR or END with no bounds check and is returned; an unknown `whence` fails and moves nothing |
| UnrarStreamReader.JavaScriptStream.Skip | unrar/cpp/volume_reader_javascript_stream.cc:105-108 | any count moves the offset by that count and is returned |
| UnrarStreamReader.SeekOutsideArchive | unrar/cpp/volume_reader_javascript_stream.cc:88-103 | for every SET, CUR or END seek the prototype moves to the target, and the current reader refuses exactly the targets before 0 or past the archive's size |
| UnrarRequest.ReadMetadataRequest | unrar/js/request.js:73-78 | the mandatory fields plus exactly `archive_size`, as decimal text that reads back as the size |
| UnrarRequest.ReadChunkDoneResponse | unrar/js/request.js:88-93 | the mandatory fields plus exactly the buffer, unchanged, and no offset |
| UnrarRequest.ReadChunkErrorResponse | unrar/js/request.js:103-106 | the chunk-error message carries only the mandatory fields, and is the same message as the current extension's |
| UnrarRequest.CloseVolumeRequest | unrar/js/request.js:114-117 | only the mandatory fields, with request id "-1" |
| App.ClearOpenedFiles | unpacker/js/app.js:481-483 | every stored volume stays, with its entry id, and has no open files |
| App.OverwriteSaves | unpacker/js/app.js:85-104 | writing the ids in turn sets exactly those ids from the mounted volumes and leaves every other stored id as it was |
| App.SavedOverWrite | unpacker/js/app.js:93-100 | writing one more id from the volumes adds exactly that id to the ones saved |
| App.RestoreVolumeState | unpacker/js/app.js:133-159 | a restore succeeds exactly when a stored dictionary, a record for the id and a restored entry all exist, and then hands over that entry and the saved open files |
| App.SaveThenRestore | unpacker/js/app.js:96-99 | a state saved for an entry that `restoreEntry` gives back is restored with the same entry and open files |
| App.StartupRestoresNoOpenFiles | unpacker/js/app.js:473-487 | after `onStartup` no restore brings back open files |
| App.Settled | unpacker/js/app.js:209-229 | a load promise settles at most once, only while still stored, and no other promise changes |
| App.SettlesOnce | unpacker/js/app.js:209-229 | settling a settled promise again changes nothing |
| App.App.constructor | unpacker/js/app.js:16-40 | a run starts with no volumes, no promises and nothing posted, over the stored state |
| App.App.Snapshot | unpacker/js/app.js:93-100 | the record saved for every mounted volume: its retained entry id and its open files |
| App.App.SaveState | unpacker/js/app.js:85-104 | the stored dictionary, or `{}` on a first save, is rewritten for exactly the ids passed; an id with no volume throws and nothing is stored; nothing else changes |
| App.App.RemoveState | unpacker/js/app.js:111-121 | exactly one id is deleted from the stored state; without a stored dictionary nothing changes |
| App.App.CleanupVolume | unpacker/js/app.js:299-304 | a close-volume request is posted and the id leaves both `volumes` and `volumeLoadedPromises`, so a later mount starts afresh |
| App.App.OnUnmountRequested | unpacker/js/app.js:316-330 | a non-forced unmount of a volume in use fails with IN_USE and changes nothing; otherwise a host success cleans the volume up and removes its stored record, a host failure gives FAILED and changes nothing |
| App.App.RestoreSingleVolume | unpacker/js/app.js:238-246 | a restore promise is created exactly when none is stored for the id, and every caller gets the stored one |
| App.App.OnLaunchedItem | unpacker/js/app.js:426-459 | a volume already loading or loaded is skipped; otherwise exactly one new launch promise is stored for the id |
| App.App.Settle | unpacker/js/app.js:209-229 | the promise store becomes what `Settled` gives; nothing else changes |
| App.App.OnRestoreStateRead | unpacker/js/app.js:218-227 | the restore outcome is `restoreVolumeState_`'s; on failure the volume is force-unmounted, and then, whether the host unmount succeeded or failed, every holder of the promise receives the rejection FAILED; a successful restore leaves the promise pending for `loadVolume_` |
| App.App.LoadVolume | unpacker/js/app.js:172-181 | a fresh decompressor over the archive's bytes and a fresh volume over it, with the saved open files or none, are registered under the id before the metadata read starts |
| App.App.OnVolumeMetadataRead | unpacker/js/app.js:183-196 | with metadata the load fulfils exactly when no files were open before, and is rejected with INVALID_OPERATION otherwise; a failed read rejects it; a rejected launch is cleaned up |
| App.App.OnMounted | unpacker/js/app.js:437-452 | a successful mount saves exactly that volume's state; a failed one cleans the volume up |
| App.App.OnStartup | unpacker/js/app.js:473-487 | every stored volume keeps its entry id and loses its open files; with no stored state nothing changes |
| App.App.OnSuspend | unpacker/js/app.js:493-495 | the state of every mounted volume is saved and every other stored id stays as it was |
| UnrarApp.App.constructor | unrar/js/app.js:16-31 | a run starts with no volumes and no module, over the stored state |
| UnrarApp.App.ModuleDidLoad | unrar/js/app.js:37-39 | the module counts as loaded from then on; nothing else changes |
| UnrarApp.App.Snapshot | unrar/js/app.js:77-83 | one retained entry id for exactly the volumes in memory |
| UnrarApp.App.SaveState | unrar/js/app.js:76-88 | the stored state is rebuilt from exactly the current volumes |
| UnrarApp.App.RestoreState | unrar/js/app.js:98-107 | a volume in memory gives success exactly when it is ready and FAILED exactly when it is not, without storage; only a volume not in memory reads storage |
| UnrarApp.App.ReadStoredEntry | unrar/js/app.js:109-122 | FAILED exactly when the module is not loaded or nothing is stored; a missing record or a failed `restoreEntry` throws; otherwise the restored entry of the stored id |
| UnrarApp.App.LoadVolume | unrar/js/app.js:139-151 | an id already in `volumes` gives FAILED and changes nothing; otherwise a fresh volume is registered before its metadata is read with request id -1 for a missing or 0 id |
| UnrarApp.App.OnUnmountRequested | unrar/js/app.js:194-204 | a host success forgets the volume and rebuilds the stored state, so the id is no longer stored; a failure gives FAILED and changes nothing |
| UnrarApp.App.OnMounted | unrar/js/app.js:309-320 | only a successful mount saves the state |
| Strings.IndexOf | unpacker/cpp/volume.cc:56 | the first position of the character, and none exactly when it does not occur |
| Strings.Split | unpacker/js/volume.js:246 | `split` gives at least one piece and no piece holds the separator |
| Strings.JoinSplit | unpacker/js/volume.js:246 | joining the pieces of `split` gives back the text |
| Strings.SplitJoin | unrar/js/volume.js:191 | splitting pieces joined by the separator gives back the pieces |
| Wire.Get | unpacker/js/decompressor.js:158-223 | a field reads as its value, and as `undefined` exactly when it is absent |
| Wire.JsNumberText | unpacker/js/decompressor.js:239-246 | `Number` of decimal text is the integer it denotes |

## Left out

- libarchive (`volume_archive*.cc` in both trees) is not part of this model. Its results reach the callbacks as parameters: an `Opening` outcome, the header sequence and how it ends, a `ReadData` function, and cleanup errors.
- Threads and locks are left out: the worker's `PostWork`, `pp::Lock`, and the `pthread` mutex and condition waits. A callback runs as one step. A blocking wait is the outcome `Blocked`, and the signal that ends it is a separate method call.
- Host APIs are reduced to their success or failure, given as parameters: `chrome.storage`, `chrome.fileSystem`, `chrome.fileSystemProvider`, `FileReader`/`Blob.slice`, `postMessage` and `pp::Var` marshalling. A blob read that fails is a parameter of `Decompressor.Decompressor.ReadChunk`.
- Loading the NaCl `<embed>` (unpacker/js/app.js:270-292) is left out. It is DOM work, and `moduleLoadedPromise` is taken as fulfilled.
- The provider-API forwarders of app.js (`onGetMetadataRequested` … `onReadFileRequested`) are left out. They only wait for `restoreSingleVolume_` and then call the volume's handlers, which are modelled in `JsVolume`.
- `handleMessage_` in both app.js files is left out. It only looks up the volume's decompressor and hands on the message, which `Decompressor.Decompressor.ProcessMessage` models.
- The passphrase prompt (`PassphraseManager`) and the dialogs are left out because they are UI. `readPassphrase_` is modelled only by the reply it sends for a given prompt outcome.
- `unrar/cpp/module.cc` is not part of this model: it returns hard-coded metadata. unrar/cpp/request.cc is not part of this model either. The prototype's native messages are built with the current extension's builders, which set the same fields.
- unrar's `onStartup` is left out because it reads storage and changes nothing. unrar's `onLaunched` is modelled only through `UnrarApp.App.LoadVolume` and `UnrarApp.App.OnMounted`.
- Console logging, `error.stack` printing and `CONSOLE_LOG`/`CONSOLE_DEBUG` messages are left out because they are diagnostics.
- `NativeMetadata.ConstructMetadata`: a path that runs through an entry already stored as a file (an archive listing `a` and then `a/b`) is not modelled as the source behaves. There `pp::VarDictionary` of the file's missing `entries` is not a dictionary, the `Set` into it fails, and the file ends with a null `entries`, so `b` is lost. The model reads the file's missing children as empty and gives the file an `entries` dictionary holding `b`.
- `JsRequest.ToText`: JavaScript numbers are IEEE doubles, and the model uses unbounded integers. `toString()` switches to exponent form from 1e21, which the model does not write. Sizes, offsets and request ids are taken to stay below 2^53, where doubles are exact.
- `Decimal.IntToString`: the round trip with `parseInt` is proved for every integer. For JavaScript values it holds only below 2^53, for the same reason.
- `Wire.JsNumberText`: `Number` of decimal text rounds to the nearest double above 2^53. The model gives the exact integer, so it matches the source only for magnitudes below 2^53.
- JavaScript orders integer-like object keys before other keys. The model keeps children in insertion order, so names that look like array indices are not reordered.
- `StreamReader.JavaScriptStream.Seek`: does not model int64 overflow of `offset_ + offset` or `archive_size_ + offset`. Integers are unbounded here.
- `UnrarStreamReader.JavaScriptStream.Seek`: likewise, the sums are unbounded integers. The `PP_DCHECK(false)` of an unknown `whence` is modelled by its release-build behaviour, `ARCHIVE_FATAL`.
- `NativeRequest.GetInt64FromString`: follows C++11 `operator>>`. An out-of-range number is clamped to the int64 bound, and text with no digits gives 0. The stream's fail bit is not modelled.
- An operation outside the native enum is modelled as doing nothing in `HandleMessage`, which is the release-build behaviour of the `PP_NOTREACHED` default. Its `PP_DCHECK`s on the field types are not requirements. A missing field reads as `AsInt` 0 or `AsString` "".
- `HeaderCache.Cache.AddHeader`: header_cache.h:45-47 says a second header at a cached offset is ignored, but header_cache.cc:51 only has a `PP_DCHECK`. The model follows the code and makes a fresh offset a precondition. It does not say what a release build does, which is to overwrite the entry.
- The unrar reader's `Open` always returns `ARCHIVE_OK`, so the "Couldn't open volume reader" branch is never taken. The source builds the reader with four arguments where its header declares three; the model uses the request id and the archive size.
- The error branch of the current `CloseFileCallback` cannot be taken, because `CleanupVolumeArchive` without posting always succeeds; the model shows this with `assert false` in that branch.
- In `onReadFileRequested`, the `console.assert`s that offset and length are not negative (unpacker/js/volume.js:225-226) are preconditions.
- The decompressor's `readMetadata` and `openFile` pass their `encoding` and `index` arguments into the messages, as decompressor.js writes them. `volume.js` calls these functions without them.

## Findings

| source | as written | input that shows it | evidently intended | confidence | as-written member | corrected member |
|---|---|---|---|---|---|---|
| unpacker/cpp/module.cc:152-157 | CLOSE_VOLUME looks the id up, only `PP_DCHECK`s that it was found, then deletes through the iterator, which is `end()` for an unknown id | a close-volume request for an id the instance never registered: after a restart with no stored state, the failed restore force-unmounts the id (unpacker/js/app.js:218-227) and `cleanupVolume` posts the close (unpacker/js/app.js:299-304). The two revisions number the operation differently (8 in request.js, 5 in request.h), so the row is about the native CLOSE_VOLUME case receiving that id | a close for an unknown id is ignored, as chunk replies for a missing volume are (unpacker/cpp/module.cc:208-212) | not executed; likely | NativeModule.CloseVolumeAsWritten, NativeModule.CloseAfterFailedRestore | NativeModule.CloseVolume |
