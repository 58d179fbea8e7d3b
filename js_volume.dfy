/**
 * One mounted archive on the JavaScript side (unpacker/js/volume.js): the
 * metadata tree received from the native module, normalised for the file
 * system provider, the path lookup in that tree, the table of open files and
 * the handlers of the provider's requests.
 */
module JsVolume {
  import opened Wrappers
  import opened Metadata
  import opened Strings
  import Wire
  import Decompressor

  // ---- Metadata normalisation (`correctMetadata`) ----

  /** `DateFromTimeT`: a `time_t` in seconds as a `Date`, kept here as its milliseconds. */
  function DateFromTimeT(timestamp: int): int
  {
    1000 * timestamp
  }

  /**
   * `correctMetadata`: the size becomes a number, the modification time a date;
   * the children of a directory are corrected in turn.
   */
  function CorrectMetadata(e: Entry): (r: Entry)
    decreases e
    ensures r.isDirectory == e.isDirectory && r.name == e.name
    ensures r.size == Number(NumericValue(e.size))
    ensures r.modificationTime == Number(DateFromTimeT(NumericValue(e.modificationTime)))
    ensures !e.isDirectory ==> r.entries == e.entries
    ensures r.entries.Present? <==> e.entries.Present?
    ensures KeysOf(ChildrenOf(r)) == KeysOf(ChildrenOf(e))
  {
    var fixed := e.(size := Number(NumericValue(e.size)),
                    modificationTime := Number(DateFromTimeT(NumericValue(e.modificationTime))));
    if e.isDirectory && e.entries.Present? then
      var items := e.entries.items;
      fixed.(entries := Present(seq(|items|, i requires 0 <= i < |items| =>
                                      Child(items[i].key, CorrectMetadata(items[i].entry)))))
    else fixed
  }

  /** In a corrected directory, the child under a key is the corrected old child. */
  lemma {:induction false} FindCorrected(e: Entry, key: string)
    requires e.isDirectory
    ensures Find(ChildrenOf(CorrectMetadata(e)), key) ==
            (match Find(ChildrenOf(e), key)
             case None => None
             case Some(x) => Some(CorrectMetadata(x)))
  {
    var d := ChildrenOf(e);
    var r := ChildrenOf(CorrectMetadata(e));
    assert |r| == |d|;
    assert forall i :: 0 <= i < |d| ==> r[i] == Child(d[i].key, CorrectMetadata(d[i].entry));
    FindMapped(d, r, key);
  }

  /** Finding in a dictionary whose values are the corrected values of another. */
  lemma {:induction false} FindMapped(d: seq<Child>, r: seq<Child>, key: string)
    requires |r| == |d|
    requires forall i :: 0 <= i < |d| ==> r[i] == Child(d[i].key, CorrectMetadata(d[i].entry))
    ensures Find(r, key) == (match Find(d, key)
                             case None => None
                             case Some(x) => Some(CorrectMetadata(x)))
    decreases |d|
  {
    if d != [] {
      FindMapped(d[1..], r[1..], key);
    }
  }

  /** Every entry on the way down the path is a directory with a dictionary. */
  predicate DirectoriesOnPath(e: Entry, segs: seq<string>)
  {
    forall j :: 0 <= j < |segs| ==>
      Walk(e, segs[..j]).Some? && Walk(e, segs[..j]).value.isDirectory && Walk(e, segs[..j]).value.entries.Present?
  }

  lemma DirectoriesOnPathTail(e: Entry, segs: seq<string>, c: Entry)
    requires segs != [] && DirectoriesOnPath(e, segs)
    requires Find(ChildrenOf(e), segs[0]) == Some(c)
    ensures DirectoriesOnPath(c, segs[1..])
  {
    forall j | 0 <= j < |segs| - 1
      ensures Walk(c, segs[1..][..j]).Some? && Walk(c, segs[1..][..j]).value.isDirectory &&
              Walk(c, segs[1..][..j]).value.entries.Present?
    {
      assert segs[..j + 1][1..] == segs[1..][..j];
      assert Walk(e, segs[..j + 1]) == Walk(c, segs[1..][..j]);
    }
  }

  /**
   * Correction reaches every entry that can be reached through directories:
   * the entry at the same path in the corrected tree is the corrected entry.
   */
  lemma {:induction false} CorrectMetadataAt(e: Entry, segs: seq<string>)
    requires DirectoriesOnPath(e, segs)
    requires Walk(e, segs).Some?
    ensures Walk(CorrectMetadata(e), segs) == Some(CorrectMetadata(Walk(e, segs).value))
    decreases |segs|
  {
    if segs != [] {
      assert segs[..0] == [];
      var c := Find(ChildrenOf(e), segs[0]).value;
      FindCorrected(e, segs[0]);
      DirectoriesOnPathTail(e, segs, c);
      CorrectMetadataAt(c, segs[1..]);
    }
  }

  // ---- Path lookup (`getEntryMetadata_`) ----

  /** The names `getEntryMetadata_` follows: the first piece and one trailing empty piece are dropped. */
  function PathSegments(entryPath: string): seq<string>
  {
    var pieces := Split(entryPath, '/')[1..];
    if |pieces| > 0 && pieces[|pieces| - 1] == "" then pieces[..|pieces| - 1] else pieces
  }

  /** "/" names the root. */
  lemma PathSegmentsRoot()
    ensures PathSegments("/") == []
  {
    assert IndexOf("/", '/') == Some(0);
    assert Split("", '/') == [""];
  }

  /** "/a/b" names the entry reached through a then b. */
  lemma PathSegmentsOfJoin(names: seq<string>)
    requires |names| >= 1
    requires forall i :: 0 <= i < |names| ==> '/' !in names[i] && names[i] != ""
    ensures PathSegments("/" + Join(names, '/')) == names
  {
    var withRoot := [""] + names;
    assert withRoot[1..] == names;
    assert Join(withRoot, '/') == "/" + Join(names, '/');
    SplitJoin(withRoot, '/');
  }

  /** "/a/b/", with the trailing delimiter, names the same entry. */
  lemma PathSegmentsOfJoinTrailing(names: seq<string>)
    requires |names| >= 1
    requires forall i :: 0 <= i < |names| ==> '/' !in names[i] && names[i] != ""
    ensures PathSegments("/" + Join(names, '/') + "/") == names
  {
    var withEnd := [""] + (names + [""]);
    var path := "/" + Join(names, '/') + "/";
    SplitWithDelimiters(names, path, withEnd);
    assert (names + [""])[..|names|] == names;
  }

  lemma SplitWithDelimiters(names: seq<string>, path: string, withEnd: seq<string>)
    requires |names| >= 1
    requires forall i :: 0 <= i < |names| ==> '/' !in names[i]
    requires path == "/" + Join(names, '/') + "/" && withEnd == [""] + (names + [""])
    ensures Split(path, '/')[1..] == names + [""]
  {
    assert withEnd[1..] == names + [""];
    JoinAppend(names, "", '/');
    assert Join(withEnd, '/') == path;
    SplitJoin(withEnd, '/');
  }

  lemma {:induction false} JoinAppend(parts: seq<string>, last: string, c: char)
    requires |parts| >= 1
    ensures Join(parts + [last], c) == Join(parts, c) + [c] + last
    decreases |parts|
  {
    if |parts| > 1 {
      assert (parts + [last])[1..] == parts[1..] + [last];
      JoinAppend(parts[1..], last, c);
    }
  }

  /** The three outcomes of a lookup: an entry, no entry (null or undefined), or a TypeError. */
  datatype Lookup = Found(entry: Entry) | Missing | Throws

  /**
   * The lookup loop over the remaining names from `node`: a missing entry, or a
   * file before the last name, gives null; an entry without `entries` that
   * must be looked into throws.
   */
  function Resolve(node: Option<Entry>, segs: seq<string>): Lookup
    decreases |segs|
  {
    if segs == [] then (if node.Some? then Found(node.value) else Missing)
    else if node.None? || (!node.value.isDirectory && |segs| != 1) then Missing
    else if node.value.entries.Absent? then Throws
    else Resolve(Find(node.value.entries.items, segs[0]), segs[1..])
  }

  /** A lookup that finds an entry found the entry at that path. */
  lemma {:induction false} ResolveSound(node: Option<Entry>, segs: seq<string>)
    ensures Resolve(node, segs).Found? ==> node.Some? && Walk(node.value, segs) == Some(Resolve(node, segs).entry)
    decreases |segs|
  {
    if segs != [] && node.Some? && !(!node.value.isDirectory && |segs| != 1) && node.value.entries.Present? {
      ResolveSound(Find(node.value.entries.items, segs[0]), segs[1..]);
    }
  }

  /** Through directories, the lookup finds exactly the entries of the tree: the entry, or nothing. */
  lemma {:induction false} ResolveComplete(e: Entry, segs: seq<string>)
    requires DirectoriesOnPath(e, segs)
    ensures Walk(e, segs).Some? ==> Resolve(Some(e), segs) == Found(Walk(e, segs).value)
    ensures Walk(e, segs).None? ==> Resolve(Some(e), segs) == Missing
    decreases |segs|
  {
    if segs != [] {
      assert segs[..0] == [];
      match Find(ChildrenOf(e), segs[0])
      case None =>
        if |segs| > 1 {
          assert Resolve(None, segs[1..]) == Missing;
        }
      case Some(c) =>
        DirectoriesOnPathTail(e, segs, c);
        ResolveComplete(c, segs[1..]);
    }
  }

  /** Looking into a file reached through directories as the parent of the last name throws. */
  lemma ResolveThroughFileThrows(e: Entry, segs: seq<string>, name: string)
    requires DirectoriesOnPath(e, segs)
    requires Walk(e, segs).Some? && !Walk(e, segs).value.isDirectory && Walk(e, segs).value.entries.Absent?
    ensures Resolve(Some(e), segs + [name]) == Throws
  {
    ResolveStep(e, segs, [name]);
  }

  lemma ResolveThroughDirectory(e: Entry, segs: seq<string>)
    requires segs != [] && e.isDirectory && e.entries.Present?
    ensures Resolve(Some(e), segs) == Resolve(Find(ChildrenOf(e), segs[0]), segs[1..])
  {
  }

  /** The lookup through directories continues from the entry they lead to. */
  lemma {:induction false} ResolveStep(e: Entry, segs: seq<string>, rest: seq<string>)
    requires DirectoriesOnPath(e, segs) && Walk(e, segs).Some?
    ensures Resolve(Some(e), segs + rest) == Resolve(Walk(e, segs), rest)
    decreases |segs|
  {
    if segs != [] {
      assert Find(ChildrenOf(e), segs[0]).Some?;
      var c := Find(ChildrenOf(e), segs[0]).value;
      assert Resolve(Some(e), segs + rest) == Resolve(Some(c), segs[1..] + rest) by {
        assert segs[..0] == [];
        assert e.isDirectory && e.entries.Present?;
        ResolveThroughDirectory(e, segs + rest);
        assert (segs + rest)[0] == segs[0] && (segs + rest)[1..] == segs[1..] + rest;
      }
      assert Walk(e, segs) == Walk(c, segs[1..]);
      assert DirectoriesOnPath(c, segs[1..]) by {
        DirectoriesOnPathTail(e, segs, c);
      }
      ResolveStep(c, segs[1..], rest);
    } else {
      assert segs + rest == rest;
    }
  }

  // ---- The volume ----

  /** The archive file a volume was mounted from (a FileSystem API `Entry`). */
  datatype ArchiveEntry = ArchiveEntry(name: string)

  /** `fileSystemProvider.OpenFileRequestedOptions`, as far as the volume reads them. */
  datatype OpenOptions = OpenOptions(requestId: int, filePath: string, mode: string, create: bool)

  datatype ProviderError = NotFound | NotADirectory | InvalidOperation | InUse | Failed

  /** A call the volume makes on its decompressor, in the shape volume.js makes it. */
  datatype EngineCall =
    | ReadMetadataCall(requestId: int)
    | OpenFileCall(requestId: int, filePath: string)
    | CloseFileCall(requestId: int, openRequestId: int)
    | ReadFileCall(requestId: int, openRequestId: int, offset: int, length: int)

  /** How a provider request is answered: a callback, a forwarded call, or a thrown TypeError. */
  datatype Response =
    | Failure(error: ProviderError)
    | EntryMetadata(entry: Entry)
    | Listing(entries: seq<Entry>, hasMore: bool)
    | Data(buffer: seq<Wire.byte>, hasMore: bool)
    | Forwarded(call: EngineCall)
    | Thrown

  const DEFAULT_READ_METADATA_REQUEST_ID := -1

  /** How a read of `length` bytes at `offset` of a file of `fileSize` bytes is served. */
  datatype ReadPlan = EmptyRead | ForwardRead(length: int)

  /** Nothing to read past the end or for zero bytes; otherwise the length is cut at the end of the file. */
  function PlanRead(offset: int, length: int, fileSize: int): (p: ReadPlan)
    requires offset >= 0 && length >= 0
    ensures p.EmptyRead? <==> offset >= fileSize || length == 0
    ensures p.ForwardRead? ==> 0 < p.length <= length && offset + p.length <= fileSize
    ensures p.ForwardRead? ==> p.length == length || offset + p.length == fileSize
  {
    if offset >= fileSize || length == 0 then EmptyRead
    else ForwardRead(if length < fileSize - offset then length else fileSize - offset)
  }

  /** The entries of a dictionary in stored order. */
  function Values(d: seq<Child>): (r: seq<Entry>)
    ensures |r| == |d| && forall i :: 0 <= i < |d| ==> r[i] == d[i].entry
  {
    seq(|d|, i requires 0 <= i < |d| => d[i].entry)
  }

  /** `Object.keys(m).length > 0`: a dictionary has a key exactly when its size is positive. */
  lemma NonEmptyMap(m: map<int, OpenOptions>)
    ensures |m| > 0 <==> exists k :: k in m
  {
    if !(exists k :: k in m) {
      assert m == map[];
    }
  }

  class Volume {
    const decompressor: Decompressor.Decompressor
    const entry: ArchiveEntry
    var metadata: Option<Entry>
    /** Open files by the request id that opened them. */
    var openedFiles: map<int, OpenOptions>

    /** A volume before its metadata is read; `openedFiles` are those saved before a suspend, if any. */
    constructor(decompressor: Decompressor.Decompressor, entry: ArchiveEntry,
                openedFiles: Option<map<int, OpenOptions>>)
      ensures this.decompressor == decompressor && this.entry == entry
      ensures metadata.None?
      ensures this.openedFiles == if openedFiles.Some? then openedFiles.value else map[]
    {
      this.decompressor := decompressor;
      this.entry := entry;
      metadata := None;
      this.openedFiles := if openedFiles.Some? then openedFiles.value else map[];
    }

    /** `!!this.metadata`: ready once metadata is stored, which only `OnMetadataRead` does. */
    predicate IsReady()
      reads this
      ensures IsReady() ==> metadata.Some?
      ensures !IsReady() ==> metadata == None
    {
      metadata.Some?
    }

    /** In use while the decompressor has a request in flight or a file is open. */
    predicate InUse()
      reads this, decompressor
      ensures InUse() <==> (exists id :: id in decompressor.requestsInProgress) || (exists id :: id in openedFiles)
    {
      decompressor.HasRequestsInProgressIff();
      NonEmptyMap(openedFiles);
      decompressor.HasRequestsInProgress() || |openedFiles| > 0
    }

    /** `initialize`: asks the decompressor for the metadata under the default request id. */
    method Initialize() returns (call: EngineCall)
      ensures call == ReadMetadataCall(DEFAULT_READ_METADATA_REQUEST_ID)
    {
      call := ReadMetadataCall(DEFAULT_READ_METADATA_REQUEST_ID);
    }

    /** The success callback of `initialize`: keeps a corrected copy of the metadata. */
    method OnMetadataRead(received: Entry)
      modifies this
      ensures metadata == Some(CorrectMetadata(received))
      ensures openedFiles == old(openedFiles)
      ensures IsReady()
    {
      metadata := Some(CorrectMetadata(received));
    }

    /** `getEntryMetadata_`. */
    method GetEntryMetadata(entryPath: string) returns (r: Lookup)
      ensures r == Resolve(metadata, PathSegments(entryPath))
    {
      var pathArray := Split(entryPath, '/');
      pathArray := pathArray[1..];
      if |pathArray| > 0 {
        var lastIndex := |pathArray| - 1;
        if pathArray[lastIndex] == "" {
          pathArray := pathArray[..lastIndex];
        }
      }
      var entryMetadata := metadata;
      var i, limit := 0, |pathArray|;
      while i < limit
        invariant 0 <= i <= limit == |pathArray|
        invariant Resolve(entryMetadata, pathArray[i..]) == Resolve(metadata, pathArray)
      {
        if entryMetadata.None? || (!entryMetadata.value.isDirectory && i != limit - 1) {
          return Missing;
        }
        if entryMetadata.value.entries.Absent? {
          return Throws;
        }
        assert pathArray[i..][1..] == pathArray[i + 1..];
        entryMetadata := Find(entryMetadata.value.entries.items, pathArray[i]);
        i := i + 1;
      }
      r := if entryMetadata.Some? then Found(entryMetadata.value) else Missing;
    }

    method OnGetMetadataRequested(entryPath: string) returns (r: Response)
      requires IsReady()
      ensures var l := Resolve(metadata, PathSegments(entryPath));
              (r.EntryMetadata? <==> l.Found?) && (l.Found? ==> r.entry == l.entry) &&
              (r == Failure(NotFound) <==> l.Missing?) && (r.Thrown? <==> l.Throws?)
    {
      var found := GetEntryMetadata(entryPath);
      match found
      case Found(e) => r := EntryMetadata(e);
      case Missing => r := Failure(NotFound);
      case Throws => r := Thrown;
    }

    method OnReadDirectoryRequested(directoryPath: string) returns (r: Response)
      requires IsReady()
      ensures var l := Resolve(metadata, PathSegments(directoryPath));
              (l.Missing? <==> r == Failure(NotFound)) &&
              (l.Throws? <==> r.Thrown?) &&
              (l.Found? && !l.entry.isDirectory <==> r == Failure(NotADirectory)) &&
              (l.Found? && l.entry.isDirectory <==> r.Listing?) &&
              (r.Listing? ==> r.entries == Values(ChildrenOf(l.entry)) && !r.hasMore)
    {
      var directoryMetadata := GetEntryMetadata(directoryPath);
      if directoryMetadata.Throws? {
        return Thrown;
      }
      if directoryMetadata.Missing? {
        return Failure(NotFound);
      }
      var directory := directoryMetadata.entry;
      if !directory.isDirectory {
        return Failure(NotADirectory);
      }
      var items := ChildrenOf(directory);
      var entries: seq<Entry> := [];
      var i := 0;
      while i < |items|
        invariant 0 <= i <= |items|
        invariant entries == Values(items[..i])
      {
        entries := entries + [items[i].entry];
        i := i + 1;
      }
      assert items[..i] == items;
      r := Listing(entries, false);
    }

    method OnOpenFileRequested(options: OpenOptions) returns (r: Response)
      requires IsReady()
      ensures options.mode != "READ" || options.create ==> r == Failure(InvalidOperation)
      ensures options.mode == "READ" && !options.create ==>
                var l := Resolve(metadata, PathSegments(options.filePath));
                (l.Found? <==> r == Forwarded(OpenFileCall(options.requestId, options.filePath))) &&
                (l.Missing? <==> r == Failure(NotFound)) &&
                (l.Throws? <==> r.Thrown?)
    {
      if options.mode != "READ" || options.create {
        return Failure(InvalidOperation);
      }
      var found := GetEntryMetadata(options.filePath);
      match found
      case Found(_) => r := Forwarded(OpenFileCall(options.requestId, options.filePath));
      case Missing => r := Failure(NotFound);
      case Throws => r := Thrown;
    }

    /** The success callback of an open: the file is recorded as open under its request id. */
    method OnOpenFileDone(options: OpenOptions)
      modifies this
      ensures openedFiles == old(openedFiles)[options.requestId := options]
      ensures metadata == old(metadata)
    {
      openedFiles := openedFiles[options.requestId := options];
    }

    method OnCloseFileRequested(requestId: int, openRequestId: int) returns (r: Response)
      requires IsReady()
      ensures openRequestId !in openedFiles <==> r == Failure(InvalidOperation)
      ensures openRequestId in openedFiles <==> r == Forwarded(CloseFileCall(requestId, openRequestId))
    {
      if openRequestId !in openedFiles {
        return Failure(InvalidOperation);
      }
      r := Forwarded(CloseFileCall(requestId, openRequestId));
    }

    /** The success callback of a close: exactly that file is no longer open. */
    method OnCloseFileDone(openRequestId: int)
      modifies this
      ensures openedFiles == old(openedFiles) - {openRequestId}
      ensures metadata == old(metadata)
    {
      openedFiles := openedFiles - {openRequestId};
    }

    method OnReadFileRequested(requestId: int, openRequestId: int, offset: int, length: int) returns (r: Response)
      requires IsReady()
      requires offset >= 0 && length >= 0
      ensures openRequestId !in openedFiles ==> r == Failure(InvalidOperation)
      ensures openRequestId in openedFiles ==>
                var l := Resolve(metadata, PathSegments(openedFiles[openRequestId].filePath));
                (!l.Found? ==> r.Thrown?) &&
                (l.Found? ==>
                   match PlanRead(offset, length, NumericValue(l.entry.size))
                   case EmptyRead => r == Data([], false)
                   case ForwardRead(n) => r == Forwarded(ReadFileCall(requestId, openRequestId, offset, n)))
    {
      if openRequestId !in openedFiles {
        return Failure(InvalidOperation);
      }
      var openOptions := openedFiles[openRequestId];
      var found := GetEntryMetadata(openOptions.filePath);
      if !found.Found? {
        return Thrown;
      }
      var fileSize := NumericValue(found.entry.size);
      if offset >= fileSize || length == 0 {
        return Data([], false);
      }
      var clamped := if length < fileSize - offset then length else fileSize - offset;
      r := Forwarded(ReadFileCall(requestId, openRequestId, offset, clamped));
    }
  }
}
