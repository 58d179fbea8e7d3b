/**
 * How the native side turns archive headers into the metadata tree
 * (CreateEntry and ConstructMetadata in volume.cc; the prototype's copy is the same).
 */
module NativeMetadata {
  import opened Wrappers
  import opened Metadata
  import Decimal
  import opened Strings

  const PATH_DELIMITER: char := '/'

  /**
   * A fresh entry: size and modification time as decimal text, and an empty
   * children dictionary exactly when it is a directory.
   */
  function CreateEntry(name: string, isDirectory: bool, size: int, modificationTime: int): (e: Entry)
    ensures e.isDirectory == isDirectory && e.name == name
    ensures e.size.Text? && NumericValue(e.size) == size
    ensures e.modificationTime.Text? && NumericValue(e.modificationTime) == modificationTime
    ensures e.entries.Present? <==> isDirectory
    ensures ChildrenOf(e) == []
  {
    Entry(isDirectory, name, Text(Decimal.IntToString(size)), Text(Decimal.IntToString(modificationTime)),
          if isDirectory then Present([]) else Absent)
  }

  /** The name ConstructMetadata inserts under the parent: the text up to the first '/'. */
  function FirstSegment(path: string): string
  {
    match IndexOf(path, PATH_DELIMITER)
    case None => path
    case Some(p) => path[..p]
  }

  /**
   * Inserts the archive path `path` (no leading '/') under `parent`: missing
   * directories on the way are created, the last name gets a fresh entry that
   * keeps the children of an entry already stored under that name.
   */
  function ConstructMetadata(path: string, size: int, isDirectory: bool, modificationTime: int,
                             parent: Entry): (r: Entry)
    decreases |path|
    ensures SameAttributes(r, parent)
    ensures path == "" ==> r == parent
    ensures path != "" ==> r.entries.Present?
    ensures UniqueKeys(ChildrenOf(parent)) ==> UniqueKeys(ChildrenOf(r))
    ensures path != "" ==>
              forall k :: k != FirstSegment(path) ==> Find(ChildrenOf(r), k) == Find(ChildrenOf(parent), k)
  {
    if path == "" then parent
    else
      var children := ChildrenOf(parent);
      match IndexOf(path, PATH_DELIMITER)
      case None =>
        var made := CreateEntry(path, isDirectory, size, modificationTime);
        var e := match Find(children, path)
                 case Some(prior) => made.(entries := prior.entries)
                 case None => made;
        parent.(entries := Present(Put(children, path, e)))
      case Some(p) =>
        var name := path[..p];
        var next := match Find(children, name)
                    case Some(prior) => prior
                    case None => CreateEntry(name, true, 0, modificationTime);
        var e := ConstructMetadata(path[p + 1..], size, isDirectory, modificationTime, next);
        parent.(entries := Present(Put(children, name, e)))
  }

  /** The names ConstructMetadata descends through, in order. */
  function Segments(path: string): seq<string>
    decreases |path|
  {
    if path == "" then []
    else
      match IndexOf(path, PATH_DELIMITER)
      case None => [path]
      case Some(p) => [path[..p]] + Segments(path[p + 1..])
  }

  /** An entry on the way to the inserted one: the existing entry, or a new directory. */
  predicate IntermediateOk(prior: Option<Entry>, e: Entry, name: string, modificationTime: int)
  {
    match prior
    case Some(o) => SameAttributes(e, o)
    case None => SameAttributes(e, CreateEntry(name, true, 0, modificationTime))
  }

  /** The inserted entry: fresh attributes, and the children of the entry it replaces. */
  predicate LeafOk(prior: Option<Entry>, e: Entry, name: string, size: int, isDirectory: bool,
                   modificationTime: int)
  {
    var made := CreateEntry(name, isDirectory, size, modificationTime);
    SameAttributes(e, made) && e.entries == (if prior.Some? then prior.value.entries else made.entries)
  }

  /** The entry at a path below an entry that may be missing. */
  function WalkFrom(o: Option<Entry>, path: seq<string>): Option<Entry>
  {
    if o.None? then None else Walk(o.value, path)
  }

  lemma WalkCons(e: Entry, name: string, rest: seq<string>)
    ensures Walk(e, [name] + rest) == WalkFrom(Find(ChildrenOf(e), name), rest)
  {
    assert ([name] + rest)[1..] == rest;
  }

  lemma WalkBelowNew(name: string, modificationTime: int, rest: seq<string>)
    requires rest != []
    ensures Walk(CreateEntry(name, true, 0, modificationTime), rest) == None
  {
  }

  /** The parent's child under `name` that ConstructMetadata descends into. */
  function NextParent(parent: Entry, name: string, modificationTime: int): Entry
  {
    match Find(ChildrenOf(parent), name)
    case Some(prior) => prior
    case None => CreateEntry(name, true, 0, modificationTime)
  }

  /** Walking through a child that was just stored, and through the old child. */
  lemma WalkThrough(parent: Entry, name: string, e: Entry, modificationTime: int, t: seq<string>)
    ensures Walk(parent.(entries := Present(Put(ChildrenOf(parent), name, e))), [name] + t) == Walk(e, t)
    ensures t != [] ==> Walk(parent, [name] + t) == Walk(NextParent(parent, name, modificationTime), t)
    ensures Walk(parent, [name]) == Find(ChildrenOf(parent), name)
  {
    WalkCons(parent.(entries := Present(Put(ChildrenOf(parent), name, e))), name, t);
    WalkCons(parent, name, t);
    WalkCons(parent, name, []);
    assert [name] + [] == [name];
    if t != [] && Find(ChildrenOf(parent), name).None? {
      WalkBelowNew(name, modificationTime, t);
    }
  }

  /** Every prefix of the path names an entry of `r`. */
  predicate PrefixesExist(r: Entry, segs: seq<string>)
  {
    forall j :: 0 < j <= |segs| ==> Walk(r, segs[..j]).Some?
  }

  /** Every entry strictly on the way is the old one or a new directory. */
  predicate IntermediatesOk(parent: Entry, r: Entry, segs: seq<string>, modificationTime: int)
  {
    forall j :: 0 < j < |segs| ==>
      Walk(r, segs[..j]).Some? &&
      IntermediateOk(Walk(parent, segs[..j]), Walk(r, segs[..j]).value, segs[j - 1], modificationTime)
  }

  /** The entry the whole path names: a directory on the way for a trailing '/', else the leaf. */
  predicate EndOk(parent: Entry, r: Entry, segs: seq<string>, trailingDelimiter: bool, size: int,
                  isDirectory: bool, modificationTime: int)
    requires segs != []
  {
    Walk(r, segs).Some? &&
    if trailingDelimiter then
      IntermediateOk(Walk(parent, segs), Walk(r, segs).value, segs[|segs| - 1], modificationTime)
    else
      LeafOk(Walk(parent, segs), Walk(r, segs).value, segs[|segs| - 1], size, isDirectory, modificationTime)
  }

  /**
   * Where ConstructMetadata leaves the header it inserts: every name of the path
   * exists afterwards; each directory on the way is the one that was there or a
   * new directory of size 0 carrying the header's modification time; the last
   * name has the header's type, size and time and keeps the children of the entry
   * it replaces (a path ending in '/' names a directory on the way, not a leaf).
   */
  predicate PathPlaced(parent: Entry, r: Entry, path: string, size: int, isDirectory: bool,
                       modificationTime: int)
    requires path != ""
  {
    var segs := Segments(path);
    segs != [] &&
    PrefixesExist(r, segs) &&
    IntermediatesOk(parent, r, segs, modificationTime) &&
    EndOk(parent, r, segs, path[|path| - 1] == PATH_DELIMITER, size, isDirectory, modificationTime)
  }

  /** The entry ConstructMetadata stores for a path without '/'. */
  function LeafEntry(parent: Entry, name: string, size: int, isDirectory: bool, modificationTime: int): Entry
  {
    var made := CreateEntry(name, isDirectory, size, modificationTime);
    match Find(ChildrenOf(parent), name)
    case Some(prior) => made.(entries := prior.entries)
    case None => made
  }

  lemma UnfoldLeaf(path: string, size: int, isDirectory: bool, modificationTime: int, parent: Entry)
    requires path != "" && IndexOf(path, PATH_DELIMITER).None?
    ensures ConstructMetadata(path, size, isDirectory, modificationTime, parent) ==
            parent.(entries := Present(Put(ChildrenOf(parent), path,
                                           LeafEntry(parent, path, size, isDirectory, modificationTime))))
    ensures Segments(path) == [path]
  {
  }

  lemma UnfoldDelimiter(path: string, p: nat, size: int, isDirectory: bool, modificationTime: int,
                        parent: Entry)
    requires path != "" && IndexOf(path, PATH_DELIMITER) == Some(p)
    ensures ConstructMetadata(path, size, isDirectory, modificationTime, parent) ==
            parent.(entries := Present(Put(ChildrenOf(parent), path[..p],
              ConstructMetadata(path[p + 1..], size, isDirectory, modificationTime,
                                NextParent(parent, path[..p], modificationTime)))))
    ensures Segments(path) == [path[..p]] + Segments(path[p + 1..])
  {
  }

  /** Walking a path that starts with the updated child's name. */
  lemma ShiftWalk(parent: Entry, name: string, e: Entry, modificationTime: int, segs: seq<string>,
                  rs: seq<string>, j: nat)
    requires segs == [name] + rs && 1 < j <= |segs|
    ensures Walk(parent.(entries := Present(Put(ChildrenOf(parent), name, e))), segs[..j]) == Walk(e, rs[..j - 1])
    ensures Walk(parent, segs[..j]) == Walk(NextParent(parent, name, modificationTime), rs[..j - 1])
  {
    assert segs[..j] == [name] + rs[..j - 1];
    WalkThrough(parent, name, e, modificationTime, rs[..j - 1]);
  }

  lemma FirstStep(parent: Entry, name: string, e: Entry, modificationTime: int, segs: seq<string>)
    requires segs != [] && segs[0] == name
    ensures Walk(parent.(entries := Present(Put(ChildrenOf(parent), name, e))), segs[..1]) == Some(e)
    ensures Walk(parent, segs[..1]) == Find(ChildrenOf(parent), name)
  {
    WalkThrough(parent, name, e, modificationTime, []);
    assert [name] + [] == [name];
    assert segs[..1] == [name];
  }

  lemma PrefixesThrough(parent: Entry, name: string, e: Entry, modificationTime: int, rs: seq<string>)
    requires PrefixesExist(e, rs)
    ensures PrefixesExist(parent.(entries := Present(Put(ChildrenOf(parent), name, e))), [name] + rs)
  {
    var segs := [name] + rs;
    var r := parent.(entries := Present(Put(ChildrenOf(parent), name, e)));
    forall j | 0 < j <= |segs| ensures Walk(r, segs[..j]).Some? {
      if j == 1 {
        FirstStep(parent, name, e, modificationTime, segs);
      } else {
        ShiftWalk(parent, name, e, modificationTime, segs, rs, j);
      }
    }
  }

  lemma IntermediatesThrough(parent: Entry, name: string, e: Entry, modificationTime: int, rs: seq<string>)
    requires rs != []
    requires SameAttributes(e, NextParent(parent, name, modificationTime))
    requires PrefixesExist(e, rs)
    requires IntermediatesOk(NextParent(parent, name, modificationTime), e, rs, modificationTime)
    ensures IntermediatesOk(parent, parent.(entries := Present(Put(ChildrenOf(parent), name, e))),
                            [name] + rs, modificationTime)
  {
    var segs := [name] + rs;
    var r := parent.(entries := Present(Put(ChildrenOf(parent), name, e)));
    var next := NextParent(parent, name, modificationTime);
    forall j | 0 < j < |segs|
      ensures Walk(r, segs[..j]).Some? &&
              IntermediateOk(Walk(parent, segs[..j]), Walk(r, segs[..j]).value, segs[j - 1], modificationTime)
    {
      if j == 1 {
        FirstStep(parent, name, e, modificationTime, segs);
      } else {
        ShiftWalk(parent, name, e, modificationTime, segs, rs, j);
        assert segs[j - 1] == rs[j - 2];
        assert Walk(e, rs[..j - 1]).Some?;
      }
    }
  }

  lemma EndThrough(parent: Entry, name: string, e: Entry, modificationTime: int, rs: seq<string>,
                   trailingDelimiter: bool, size: int, isDirectory: bool)
    requires rs != []
    requires EndOk(NextParent(parent, name, modificationTime), e, rs, trailingDelimiter, size, isDirectory,
                   modificationTime)
    ensures EndOk(parent, parent.(entries := Present(Put(ChildrenOf(parent), name, e))), [name] + rs,
                  trailingDelimiter, size, isDirectory, modificationTime)
  {
    var segs := [name] + rs;
    var r := parent.(entries := Present(Put(ChildrenOf(parent), name, e)));
    var next := NextParent(parent, name, modificationTime);
    assert Walk(r, segs) == Walk(e, rs) && Walk(parent, segs) == Walk(next, rs) by {
      ShiftWalk(parent, name, e, modificationTime, segs, rs, |segs|);
      assert segs[..|segs|] == segs && rs[..|rs|] == rs;
    }
    assert segs[|segs| - 1] == rs[|rs| - 1];
    EndTransfer(parent, r, segs, next, e, rs, trailingDelimiter, size, isDirectory, modificationTime);
  }

  /** `EndOk` depends only on the walks of both trees and on the last name. */
  lemma EndTransfer(parent: Entry, r: Entry, segs: seq<string>, parent': Entry, r': Entry, segs': seq<string>,
                    trailingDelimiter: bool, size: int, isDirectory: bool, modificationTime: int)
    requires segs != [] && segs' != []
    requires Walk(r, segs) == Walk(r', segs') && Walk(parent, segs) == Walk(parent', segs')
    requires segs[|segs| - 1] == segs'[|segs'| - 1]
    requires EndOk(parent', r', segs', trailingDelimiter, size, isDirectory, modificationTime)
    ensures EndOk(parent, r, segs, trailingDelimiter, size, isDirectory, modificationTime)
  {
  }

  lemma LeafCase(path: string, size: int, isDirectory: bool, modificationTime: int, parent: Entry)
    requires path != "" && IndexOf(path, PATH_DELIMITER).None?
    ensures PathPlaced(parent, ConstructMetadata(path, size, isDirectory, modificationTime, parent),
                       path, size, isDirectory, modificationTime)
  {
    UnfoldLeaf(path, size, isDirectory, modificationTime, parent);
    var e := LeafEntry(parent, path, size, isDirectory, modificationTime);
    WalkThrough(parent, path, e, modificationTime, []);
    assert [path] + [] == [path];
    assert [path][..1] == [path];
  }

  /** The first '/' with nothing after it is the last character. */
  lemma DelimiterLast(path: string, p: nat)
    requires IndexOf(path, PATH_DELIMITER) == Some(p) && path[p + 1..] == ""
    ensures path[|path| - 1] == PATH_DELIMITER
  {
    assert |path| == p + 1;
  }

  /** A path `name/`: the child `name` is kept, or made a new directory, and nothing below it changes. */
  lemma TrailingCase(path: string, p: nat, size: int, isDirectory: bool, modificationTime: int, parent: Entry)
    requires path != "" && IndexOf(path, PATH_DELIMITER) == Some(p) && path[p + 1..] == ""
    ensures PathPlaced(parent, parent.(entries := Present(Put(ChildrenOf(parent), path[..p],
                                                              NextParent(parent, path[..p], modificationTime)))),
                       path, size, isDirectory, modificationTime)
  {
    var name := path[..p];
    var next := NextParent(parent, name, modificationTime);
    var r := parent.(entries := Present(Put(ChildrenOf(parent), name, next)));
    assert Segments(path) == [name] by {
      assert Segments(path) == [name] + Segments(path[p + 1..]);
      assert Segments("") == [];
    }
    WalkThrough(parent, name, next, modificationTime, []);
    assert [name] + [] == [name];
    assert [name][..1] == [name];
    assert Walk(r, [name]) == Some(next);
    assert PrefixesExist(r, [name]);
    assert IntermediatesOk(parent, r, [name], modificationTime);
    assert path[|path| - 1] == PATH_DELIMITER by {
      DelimiterLast(path, p);
    }
    assert IntermediateOk(Walk(parent, [name]), next, name, modificationTime);
    assert EndOk(parent, r, [name], true, size, isDirectory, modificationTime);
  }

  /** A non-empty suffix ends where the whole text ends. */
  lemma LastOfSuffix(s: string, k: nat)
    requires k < |s|
    ensures s[|s| - 1] == s[k..][|s[k..]| - 1]
  {
  }

  /** A path placed below the child `name` is placed below the parent once that child is stored. */
  lemma PlacedThrough(parent: Entry, name: string, e: Entry, modificationTime: int, path: string, rest: string,
                      size: int, isDirectory: bool)
    requires path != "" && rest != ""
    requires Segments(path) == [name] + Segments(rest)
    requires path[|path| - 1] == rest[|rest| - 1]
    requires SameAttributes(e, NextParent(parent, name, modificationTime))
    ensures PathPlaced(NextParent(parent, name, modificationTime), e, rest, size, isDirectory, modificationTime) ==>
            PathPlaced(parent, parent.(entries := Present(Put(ChildrenOf(parent), name, e))), path, size,
                       isDirectory, modificationTime)
  {
    if !PathPlaced(NextParent(parent, name, modificationTime), e, rest, size, isDirectory, modificationTime) {
      return;
    }
    var rs := Segments(rest);
    var trailing := rest[|rest| - 1] == PATH_DELIMITER;
    PrefixesThrough(parent, name, e, modificationTime, rs);
    IntermediatesThrough(parent, name, e, modificationTime, rs);
    EndThrough(parent, name, e, modificationTime, rs, trailing, size, isDirectory);
  }

  /** A path through the child `name`, whose rest is already placed below that child as `e`. */
  lemma DeepCase(path: string, p: nat, e: Entry, size: int, isDirectory: bool, modificationTime: int,
                 parent: Entry)
    requires path != "" && IndexOf(path, PATH_DELIMITER) == Some(p) && path[p + 1..] != ""
    requires SameAttributes(e, NextParent(parent, path[..p], modificationTime))
    ensures PathPlaced(NextParent(parent, path[..p], modificationTime), e, path[p + 1..], size, isDirectory,
                       modificationTime) ==>
            PathPlaced(parent, parent.(entries := Present(Put(ChildrenOf(parent), path[..p], e))), path, size,
                       isDirectory, modificationTime)
  {
    var name := path[..p];
    var rest := path[p + 1..];
    assert Segments(path) == [name] + Segments(rest);
    LastOfSuffix(path, p + 1);
    PlacedThrough(parent, name, e, modificationTime, path, rest, size, isDirectory);
  }

  /** ConstructMetadata places the header as PathPlaced describes, for every path and tree. */
  lemma {:induction false} ConstructMetadataPlacesEntry(path: string, size: int, isDirectory: bool,
                                                         modificationTime: int, parent: Entry)
    requires path != ""
    ensures PathPlaced(parent, ConstructMetadata(path, size, isDirectory, modificationTime, parent),
                       path, size, isDirectory, modificationTime)
    decreases |path|
  {
    match IndexOf(path, PATH_DELIMITER)
    case None =>
      LeafCase(path, size, isDirectory, modificationTime, parent);
    case Some(p) =>
      if path[p + 1..] == "" {
        TrailingCase(path, p, size, isDirectory, modificationTime, parent);
        UnfoldDelimiter(path, p, size, isDirectory, modificationTime, parent);
      } else {
        var next := NextParent(parent, path[..p], modificationTime);
        var e := ConstructMetadata(path[p + 1..], size, isDirectory, modificationTime, next);
        ConstructMetadataPlacesEntry(path[p + 1..], size, isDirectory, modificationTime, next);
        DeepCase(path, p, e, size, isDirectory, modificationTime, parent);
        UnfoldDelimiter(path, p, size, isDirectory, modificationTime, parent);
      }
  }
}
