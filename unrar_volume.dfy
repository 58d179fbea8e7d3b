/**
 * One mounted archive in the unrar prototype (unrar/js/volume.js). The
 * metadata is corrected as in the current extension; the lookup drops every
 * empty path piece; files cannot be opened, closed or read yet.
 */
module UnrarVolume {
  import opened Wrappers
  import opened Metadata
  import opened Strings
  import opened JsVolume
  import Decompressor

  /** The pieces of `entryPath.split('/')` that are not empty, in order. */
  function NonEmptyPieces(pieces: seq<string>): (r: seq<string>)
    ensures forall i :: 0 <= i < |r| ==> r[i] != ""
    ensures |r| <= |pieces|
  {
    if pieces == [] then []
    else if pieces[|pieces| - 1] == "" then NonEmptyPieces(pieces[..|pieces| - 1])
    else NonEmptyPieces(pieces[..|pieces| - 1]) + [pieces[|pieces| - 1]]
  }

  /** Filtering one more piece keeps it exactly when it is not empty. */
  lemma NonEmptyPiecesStep(pieces: seq<string>, k: nat)
    requires k < |pieces|
    ensures NonEmptyPieces(pieces[..k + 1]) ==
            NonEmptyPieces(pieces[..k]) + (if pieces[k] != "" then [pieces[k]] else [])
  {
    assert pieces[..k + 1][..k] == pieces[..k];
  }

  function PathNames(entryPath: string): seq<string>
  {
    NonEmptyPieces(Split(entryPath, '/'))
  }

  /** Any number of delimiters between, before or after the names selects the same names. */
  lemma PathNamesOfJoin(pieces: seq<string>)
    requires |pieces| >= 1
    requires forall i :: 0 <= i < |pieces| ==> '/' !in pieces[i]
    ensures PathNames(Join(pieces, '/')) == NonEmptyPieces(pieces)
  {
    SplitJoin(pieces, '/');
  }

  /** The names themselves, when none is empty. */
  lemma {:induction false} NonEmptyPiecesKeeps(names: seq<string>)
    requires forall i :: 0 <= i < |names| ==> names[i] != ""
    ensures NonEmptyPieces(names) == names
    decreases |names|
  {
    if names != [] {
      var front := names[..|names| - 1];
      NonEmptyPiecesKeeps(front);
      assert names == front + [names[|names| - 1]];
    }
  }

  /**
   * The `forEach` walk: looking into a missing entry throws a TypeError; so
   * does meeting a file on the way, since the test reads the undeclared `i`
   * and `limit`; the last entry looked up may be missing.
   */
  function Descend(node: Option<Entry>, segs: seq<string>): Lookup
    decreases |segs|
  {
    if segs == [] then (if node.Some? then Found(node.value) else Missing)
    else if node.None? || !node.value.isDirectory || node.value.entries.Absent? then Throws
    else Descend(Find(node.value.entries.items, segs[0]), segs[1..])
  }

  /** Through directories, the walk gives the entry at the path, or nothing when only the last name is missing. */
  lemma {:induction false} DescendComplete(e: Entry, segs: seq<string>)
    requires DirectoriesOnPath(e, segs)
    ensures Walk(e, segs).Some? ==> Descend(Some(e), segs) == Found(Walk(e, segs).value)
    ensures Walk(e, segs).None? ==> Descend(Some(e), segs) == Missing
    decreases |segs|
  {
    if segs != [] {
      assert segs[..0] == [];
      WalkFirstName(e, segs);
      match Find(ChildrenOf(e), segs[0])
      case None =>
      case Some(c) =>
        DirectoriesOnPathTail(e, segs, c);
        DescendComplete(c, segs[1..]);
    }
  }

  /** The first name alone leads to the child under it. */
  lemma WalkFirstName(e: Entry, segs: seq<string>)
    requires segs != []
    ensures Walk(e, segs[..1]) == Find(ChildrenOf(e), segs[0])
  {
    assert segs[..1][1..] == [];
  }

  /** A walk that finds an entry found the entry at that path. */
  lemma {:induction false} DescendSound(node: Option<Entry>, segs: seq<string>)
    ensures Descend(node, segs).Found? ==> node.Some? && Walk(node.value, segs) == Some(Descend(node, segs).entry)
    decreases |segs|
  {
    if segs != [] && node.Some? && node.value.isDirectory && node.value.entries.Present? {
      DescendSound(Find(node.value.entries.items, segs[0]), segs[1..]);
    }
  }

  /** A file reached through directories cannot be walked into. */
  lemma {:induction false} DescendIntoFileThrows(e: Entry, segs: seq<string>, rest: seq<string>)
    requires DirectoriesOnPath(e, segs) && Walk(e, segs).Some? && !Walk(e, segs).value.isDirectory
    requires rest != []
    ensures Descend(Some(e), segs + rest) == Throws
    decreases |segs|
  {
    if segs != [] {
      assert segs[..0] == [];
      assert (segs + rest)[0] == segs[0] && (segs + rest)[1..] == segs[1..] + rest;
      var c := Find(ChildrenOf(e), segs[0]).value;
      DirectoriesOnPathTail(e, segs, c);
      DescendIntoFileThrows(c, segs[1..], rest);
    } else {
      assert segs + rest == rest;
    }
  }

  /** The provider's file operations, none of which the prototype implements. */
  datatype FileOperation = OpenFile | CloseFile | ReadFile

  class Volume {
    const decompressor: Decompressor.Decompressor
    const fileSystemId: string
    const entry: ArchiveEntry
    var metadata: Option<Entry>

    constructor(decompressor: Decompressor.Decompressor, fileSystemId: string, entry: ArchiveEntry)
      ensures this.decompressor == decompressor && this.fileSystemId == fileSystemId && this.entry == entry
      ensures metadata.None?
    {
      this.decompressor := decompressor;
      this.fileSystemId := fileSystemId;
      this.entry := entry;
      metadata := None;
    }

    /** `!!this.metadata`: ready once metadata is stored, which only `OnMetadataRead` does. */
    predicate IsReady()
      reads this
      ensures IsReady() ==> metadata.Some?
      ensures !IsReady() ==> metadata == None
    {
      metadata.Some?
    }

    /** In use exactly while the decompressor has a request in flight; open files do not count. */
    predicate InUse()
      reads this, decompressor
      ensures InUse() <==> exists id :: id in decompressor.requestsInProgress
    {
      decompressor.HasRequestsInProgressIff();
      decompressor.HasRequestsInProgress()
    }

    /** `readMetadata`: a missing or falsy request id (0 included) becomes -1. */
    method ReadMetadata(requestId: Option<int>) returns (call: EngineCall)
      ensures requestId.None? || requestId.value == 0 ==> call == ReadMetadataCall(-1)
      ensures requestId.Some? && requestId.value != 0 ==> call == ReadMetadataCall(requestId.value)
    {
      var id := if requestId.Some? && requestId.value != 0 then requestId.value else -1;
      call := ReadMetadataCall(id);
    }

    /** The success callback of `readMetadata`: a corrected copy of the metadata is kept. */
    method OnMetadataRead(received: Entry)
      modifies this
      ensures metadata == Some(CorrectMetadata(received))
      ensures IsReady()
    {
      metadata := Some(CorrectMetadata(received));
    }

    /** `getEntryMetadata_`. */
    method GetEntryMetadata(entryPath: string) returns (r: Lookup)
      ensures r == Descend(metadata, PathNames(entryPath))
    {
      var entryPathSplit := Split(entryPath, '/');
      var pathArray: seq<string> := [];
      var k := 0;
      while k < |entryPathSplit|
        invariant 0 <= k <= |entryPathSplit|
        invariant pathArray == NonEmptyPieces(entryPathSplit[..k])
      {
        NonEmptyPiecesStep(entryPathSplit, k);
        if entryPathSplit[k] != "" {
          pathArray := pathArray + [entryPathSplit[k]];
        }
        k := k + 1;
      }
      assert entryPathSplit[..k] == entryPathSplit;
      var entryMetadata := metadata;
      var i := 0;
      while i < |pathArray|
        invariant 0 <= i <= |pathArray|
        invariant Descend(entryMetadata, pathArray[i..]) == Descend(metadata, pathArray)
      {
        if entryMetadata.None? || !entryMetadata.value.isDirectory || entryMetadata.value.entries.Absent? {
          return Throws;
        }
        assert pathArray[i..][1..] == pathArray[i + 1..];
        entryMetadata := Find(entryMetadata.value.entries.items, pathArray[i]);
        i := i + 1;
      }
      r := if entryMetadata.Some? then Found(entryMetadata.value) else Missing;
    }

    method OnGetMetadataRequested(entryPath: string) returns (r: Response)
      requires IsReady()
      ensures var l := Descend(metadata, PathNames(entryPath));
              (r.EntryMetadata? <==> l.Found?) && (l.Found? ==> r.entry == l.entry) &&
              (r == Failure(NotFound) <==> l.Missing?) && (r.Thrown? <==> l.Throws?)
    {
      var found := GetEntryMetadata(entryPath);
      match found
      case Found(e) => r := EntryMetadata(e);
      case Missing => r := Failure(NotFound);
      case Throws => r := Thrown;
    }

    method OnReadDirectoryRequested(directoryPath: string) returns (r: Response)
      requires IsReady()
      ensures var l := Descend(metadata, PathNames(directoryPath));
              (l.Missing? <==> r == Failure(NotFound)) &&
              (l.Throws? <==> r.Thrown?) &&
              (l.Found? && !l.entry.isDirectory <==> r == Failure(NotADirectory)) &&
              (l.Found? && l.entry.isDirectory <==> r.Listing?) &&
              (r.Listing? ==> r.entries == Values(ChildrenOf(l.entry)) && !r.hasMore)
    {
      var directoryMetadata := GetEntryMetadata(directoryPath);
      if directoryMetadata.Throws? {
        return Thrown;
      }
      if directoryMetadata.Missing? {
        return Failure(NotFound);
      }
      var directory := directoryMetadata.entry;
      if !directory.isDirectory {
        return Failure(NotADirectory);
      }
      var items := ChildrenOf(directory);
      var entries: seq<Entry> := [];
      var i := 0;
      while i < |items|
        invariant 0 <= i <= |items|
        invariant entries == Values(items[..i])
      {
        entries := entries + [items[i].entry];
        i := i + 1;
      }
      assert items[..i] == items;
      r := Listing(entries, false);
    }

    /** `onOpenFileRequested`, `onCloseFileRequested`, `onReadFileRequested`: always refused. */
    method OnFileOperationRequested(operation: FileOperation) returns (r: Response)
      ensures r == Failure(InvalidOperation)
    {
      r := Failure(InvalidOperation);
    }
  }
}
