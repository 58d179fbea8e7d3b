/**
 * The archive metadata tree that the native side builds and the JavaScript side
 * serves: one entry per archive path, a directory holding its children in a
 * dictionary keyed by name.
 */
module Metadata {
  import opened Wrappers
  import Decimal

  /** Text that is the canonical decimal form of an integer. */
  type DecimalText = s: string | Decimal.IsDecimal(s) witness "0"

  /**
   * A `size` or `modificationTime` field. The native side stores decimal text
   * (a pp::Var cannot hold an int64_t); JavaScript replaces it by a number.
   */
  datatype Scalar = Text(text: DecimalText) | Number(value: int)

  /** The number JavaScript reads from the field (`parseInt`, `Number`, arithmetic coercion). */
  function NumericValue(x: Scalar): int
  {
    match x
    case Text(t) => Decimal.ParseDecimal(t)
    case Number(v) => v
  }

  /** The `entries` property: absent, or a dictionary of children. */
  datatype Children = Absent | Present(items: seq<Child>)

  /** One key of a dictionary of children, in insertion order. */
  datatype Child = Child(key: string, entry: Entry)

  datatype Entry = Entry(isDirectory: bool, name: string, size: Scalar,
                         modificationTime: Scalar, entries: Children)

  /** The children of an entry; a missing dictionary reads as an empty one. */
  function ChildrenOf(e: Entry): seq<Child>
  {
    if e.entries.Present? then e.entries.items else []
  }

  function KeysOf(d: seq<Child>): seq<string>
  {
    seq(|d|, i requires 0 <= i < |d| => d[i].key)
  }

  predicate UniqueKeys(d: seq<Child>)
  {
    forall i, j :: 0 <= i < j < |d| ==> d[i].key != d[j].key
  }

  /** Two entries agree on everything but their children. */
  predicate SameAttributes(a: Entry, b: Entry)
  {
    a.isDirectory == b.isDirectory && a.name == b.name &&
    a.size == b.size && a.modificationTime == b.modificationTime
  }

  /** `dictionary[key]`: the value stored under a key, if any. */
  function Find(d: seq<Child>, key: string): (r: Option<Entry>)
    ensures r.Some? <==> key in KeysOf(d)
    ensures r.Some? ==> Child(key, r.value) in d
    ensures UniqueKeys(d) ==>
      forall i :: 0 <= i < |d| && d[i].key == key ==> r == Some(d[i].entry)
  {
    if d == [] then None
    else
      assert KeysOf(d) == [d[0].key] + KeysOf(d[1..]);
      if d[0].key == key then Some(d[0].entry) else
        var r := Find(d[1..], key);
        assert UniqueKeys(d) ==> UniqueKeys(d[1..]);
        r
  }

  /**
   * `dictionary[key] = entry`: an existing key keeps its position and gets the new
   * value, a new key is appended.
   */
  function Put(d: seq<Child>, key: string, e: Entry): (r: seq<Child>)
    ensures Find(r, key) == Some(e)
    ensures forall k :: k != key ==> Find(r, k) == Find(d, k)
    ensures KeysOf(r) == if key in KeysOf(d) then KeysOf(d) else KeysOf(d) + [key]
    ensures UniqueKeys(d) ==> UniqueKeys(r)
  {
    if d == [] then
      assert KeysOf([Child(key, e)]) == [key];
      [Child(key, e)]
    else
      var c := d[0];
      assert d == [c] + d[1..];
      if c.key == key then
        PutFront(c, d[1..], key, e);
        [Child(key, e)] + d[1..]
      else
        var rest := Put(d[1..], key, e);
        PutBehind(c, d[1..], key, e, rest);
        [c] + rest
  }

  /** Putting the first child's key replaces that child in place. */
  lemma PutFront(c: Child, d: seq<Child>, key: string, e: Entry)
    requires c.key == key
    ensures Find([Child(key, e)] + d, key) == Some(e)
    ensures forall k :: k != key ==> Find([Child(key, e)] + d, k) == Find([c] + d, k)
    ensures KeysOf([Child(key, e)] + d) == KeysOf([c] + d)
    ensures UniqueKeys([c] + d) ==> UniqueKeys([Child(key, e)] + d)
  {
    ConsFacts(c, d);
    ConsFacts(Child(key, e), d);
  }

  /** Putting another key behind the first child keeps that child first. */
  lemma PutBehind(c: Child, d: seq<Child>, key: string, e: Entry, rest: seq<Child>)
    requires c.key != key
    requires Find(rest, key) == Some(e)
    requires forall k :: k != key ==> Find(rest, k) == Find(d, k)
    requires KeysOf(rest) == if key in KeysOf(d) then KeysOf(d) else KeysOf(d) + [key]
    requires UniqueKeys(d) ==> UniqueKeys(rest)
    ensures Find([c] + rest, key) == Some(e)
    ensures forall k :: k != key ==> Find([c] + rest, k) == Find([c] + d, k)
    ensures KeysOf([c] + rest) == if key in KeysOf([c] + d) then KeysOf([c] + d) else KeysOf([c] + d) + [key]
    ensures UniqueKeys([c] + d) ==> UniqueKeys([c] + rest)
  {
    ConsFacts(c, d);
    ConsFacts(c, rest);
    KeysBehind(c, d, key, rest);
  }

  lemma KeysBehind(c: Child, d: seq<Child>, key: string, rest: seq<Child>)
    requires c.key != key
    requires KeysOf(rest) == if key in KeysOf(d) then KeysOf(d) else KeysOf(d) + [key]
    requires UniqueKeys(d) ==> UniqueKeys(rest)
    requires KeysOf([c] + d) == [c.key] + KeysOf(d)
    requires KeysOf([c] + rest) == [c.key] + KeysOf(rest)
    requires UniqueKeys([c] + d) <==> c.key !in KeysOf(d) && UniqueKeys(d)
    requires UniqueKeys([c] + rest) <==> c.key !in KeysOf(rest) && UniqueKeys(rest)
    ensures KeysOf([c] + rest) == if key in KeysOf([c] + d) then KeysOf([c] + d) else KeysOf([c] + d) + [key]
    ensures UniqueKeys([c] + d) ==> UniqueKeys([c] + rest)
  {
    if key !in KeysOf([c] + d) {
      AppendAfterCons(c.key, KeysOf(d), key);
    }
  }

  lemma AppendAfterCons(first: string, keys: seq<string>, last: string)
    ensures [first] + (keys + [last]) == ([first] + keys) + [last]
  {
  }

  /** How lookups, keys and uniqueness distribute over a dictionary's first child. */
  lemma ConsFacts(c: Child, d: seq<Child>)
    ensures KeysOf([c] + d) == [c.key] + KeysOf(d)
    ensures forall k :: Find([c] + d, k) == if c.key == k then Some(c.entry) else Find(d, k)
    ensures UniqueKeys([c] + d) <==> c.key !in KeysOf(d) && UniqueKeys(d)
  {
    var s := [c] + d;
    assert s[1..] == d;
    assert KeysOf(s) == [c.key] + KeysOf(d);
    if UniqueKeys(s) {
      forall i, j | 0 <= i < j < |d| ensures d[i].key != d[j].key {
        assert s[i + 1] == d[i] && s[j + 1] == d[j];
      }
      forall j | 0 <= j < |d| ensures KeysOf(d)[j] != c.key {
        assert s[0] == c && s[j + 1] == d[j];
        assert s[0].key != s[j + 1].key;
      }
    }
    if c.key !in KeysOf(d) && UniqueKeys(d) {
      forall i, j | 0 <= i < j < |s| ensures s[i].key != s[j].key {
        if i == 0 {
          assert s[j].key == KeysOf(d)[j - 1];
        } else {
          assert s[i] == d[i - 1] && s[j] == d[j - 1];
        }
      }
    }
  }

  /** The entry reached from `e` by following child names, if every step exists. */
  function Walk(e: Entry, path: seq<string>): Option<Entry>
    decreases |path|
  {
    if path == [] then Some(e)
    else
      match Find(ChildrenOf(e), path[0])
      case None => None
      case Some(c) => Walk(c, path[1..])
  }
}
