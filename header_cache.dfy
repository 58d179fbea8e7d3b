/**
 * The cache of archive headers kept for each mounted archive
 * (unpacker/cpp/header_cache.h, unpacker/cpp/header_cache.cc): at most
 * 500 000 headers by archive offset, each cut to its first 512 bytes. The
 * first headers added are the ones kept; once full, the cache ignores
 * further headers.
 */
module HeaderCache {
  import opened Wrappers
  import opened Wire

  /** `kMaximumHeaderBufferSize`: bytes kept per header. */
  const MAXIMUM_HEADER_BUFFER_SIZE := 512
  /** `kMaximumNumberOfCacheEntries`. */
  const MAXIMUM_NUMBER_OF_CACHE_ENTRIES := 500 * 1000

  /**
   * `CacheEntry`: a copy of the first `min(headerBufferSize, 512)` bytes of
   * the buffer, with that size.
   */
  function CacheEntry(headerBuffer: seq<byte>, headerBufferSize: int): (r: seq<byte>)
    requires 0 <= headerBufferSize <= |headerBuffer|
    ensures |r| <= MAXIMUM_HEADER_BUFFER_SIZE && |r| <= headerBufferSize
    ensures |r| == headerBufferSize || |r| == MAXIMUM_HEADER_BUFFER_SIZE
    ensures r == headerBuffer[..|r|]
  {
    var cachedBufferSize := if headerBufferSize <= MAXIMUM_HEADER_BUFFER_SIZE then headerBufferSize
                            else MAXIMUM_HEADER_BUFFER_SIZE;
    headerBuffer[..cachedBufferSize]
  }

  /** A header that fits is kept whole. */
  lemma CacheEntryOfShortHeader(headerBuffer: seq<byte>)
    requires |headerBuffer| <= MAXIMUM_HEADER_BUFFER_SIZE
    ensures CacheEntry(headerBuffer, |headerBuffer|) == headerBuffer
  {
  }

  /**
   * The cache after one `AddHeader`: unchanged when full, otherwise with
   * the header's entry at its offset.
   */
  function Added(cache: map<int, seq<byte>>, offset: int, headerBuffer: seq<byte>, headerBufferSize: int)
    : (r: map<int, seq<byte>>)
    requires 0 <= headerBufferSize <= |headerBuffer|
    ensures |cache| == MAXIMUM_NUMBER_OF_CACHE_ENTRIES ==> r == cache
    ensures |cache| != MAXIMUM_NUMBER_OF_CACHE_ENTRIES ==>
              offset in r && r[offset] == CacheEntry(headerBuffer, headerBufferSize) && r.Keys == cache.Keys + {offset}
    ensures forall other :: other != offset && other in cache ==> other in r && r[other] == cache[other]
  {
    if |cache| == MAXIMUM_NUMBER_OF_CACHE_ENTRIES then cache
    else cache[offset := CacheEntry(headerBuffer, headerBufferSize)]
  }

  /** One `AddHeader` call. */
  datatype HeaderAdd = HeaderAdd(offset: int, headerBuffer: seq<byte>, headerBufferSize: int)

  predicate WellFormed(add: HeaderAdd)
  {
    0 < add.headerBufferSize <= |add.headerBuffer|
  }

  /** The cache after a run of `AddHeader` calls, in order. */
  function AddedAll(cache: map<int, seq<byte>>, adds: seq<HeaderAdd>): map<int, seq<byte>>
    requires forall i :: 0 <= i < |adds| ==> WellFormed(adds[i])
    decreases |adds|
  {
    if adds == [] then cache
    else
      assert WellFormed(adds[0]);
      AddedAll(Added(cache, adds[0].offset, adds[0].headerBuffer, adds[0].headerBufferSize), adds[1..])
  }

  /** A cached header stays as it was through any later adds at other offsets. */
  lemma {:induction false} AddedAllKeeps(cache: map<int, seq<byte>>, adds: seq<HeaderAdd>, offset: int)
    requires forall i :: 0 <= i < |adds| ==> WellFormed(adds[i])
    requires forall i :: 0 <= i < |adds| ==> adds[i].offset != offset
    requires offset in cache
    ensures offset in AddedAll(cache, adds) && AddedAll(cache, adds)[offset] == cache[offset]
    decreases |adds|
  {
    if adds != [] {
      assert WellFormed(adds[0]);
      var next := Added(cache, adds[0].offset, adds[0].headerBuffer, adds[0].headerBufferSize);
      AddedAllKeeps(next, adds[1..], offset);
    }
  }

  /**
   * However many headers are added, the cache never holds more than
   * 500 000 of them, and once it is full it no longer changes.
   */
  lemma {:induction false} AddedAllBounded(cache: map<int, seq<byte>>, adds: seq<HeaderAdd>)
    requires forall i :: 0 <= i < |adds| ==> WellFormed(adds[i])
    requires |cache| <= MAXIMUM_NUMBER_OF_CACHE_ENTRIES
    ensures |AddedAll(cache, adds)| <= MAXIMUM_NUMBER_OF_CACHE_ENTRIES
    ensures |cache| == MAXIMUM_NUMBER_OF_CACHE_ENTRIES ==> AddedAll(cache, adds) == cache
    decreases |adds|
  {
    if adds != [] {
      assert WellFormed(adds[0]);
      var next := Added(cache, adds[0].offset, adds[0].headerBuffer, adds[0].headerBufferSize);
      AddedAllBounded(next, adds[1..]);
    }
  }

  class Cache {
    /** `cache_`: the cached headers by offset. */
    var cache: map<int, seq<byte>>

    ghost predicate Valid()
      reads this
    {
      && |cache| <= MAXIMUM_NUMBER_OF_CACHE_ENTRIES
      && forall offset :: offset in cache ==> 0 <= offset && |cache[offset]| <= MAXIMUM_HEADER_BUFFER_SIZE
    }

    constructor()
      ensures Valid() && cache == map[]
    {
      cache := map[];
    }

    /** `GetHeader`: the cached bytes, their length being the cached size; `None` (NULL) for an offset never added. */
    function GetHeader(offset: int): (r: Option<seq<byte>>)
      reads this
      ensures r.None? <==> offset !in cache
      ensures r.Some? ==> r.value == cache[offset]
    {
      if offset in cache then Some(cache[offset]) else None
    }

    /**
     * `AddHeader`: caches the first bytes of a header at a new offset, unless
     * the cache is full; headers at every other offset are untouched. The
     * offset must not be negative nor already cached, and the header not empty.
     */
    method AddHeader(offset: int, headerBuffer: seq<byte>, headerBufferSize: int)
      requires Valid()
      requires offset >= 0
      requires headerBufferSize > 0
      requires offset !in cache
      requires headerBufferSize <= |headerBuffer|
      modifies this
      ensures Valid()
      ensures cache == Added(old(cache), offset, headerBuffer, headerBufferSize)
      ensures |old(cache)| < MAXIMUM_NUMBER_OF_CACHE_ENTRIES ==>
                GetHeader(offset) == Some(CacheEntry(headerBuffer, headerBufferSize))
      ensures forall other :: other != offset ==> GetHeader(other) == old(GetHeader(other))
    {
      if |cache| == MAXIMUM_NUMBER_OF_CACHE_ENTRIES {
        return;
      }
      cache := cache[offset := CacheEntry(headerBuffer, headerBufferSize)];
    }
  }
}
