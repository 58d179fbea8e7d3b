/**
 * The native half of the protocol (unpacker/cpp/request.cc, request.h): the
 * operation enum, the builders of the messages the module posts to JavaScript,
 * and the parser of the decimal int64 fields JavaScript sends.
 */
module NativeRequest {
  import opened Wrappers
  import opened Wire
  import Decimal
  import Metadata
  import JsRequest

  const READ_METADATA := 0
  const READ_METADATA_DONE := 1
  const READ_CHUNK := 2
  const READ_CHUNK_DONE := 3
  const READ_CHUNK_ERROR := 4
  const CLOSE_VOLUME := 5
  const OPEN_FILE := 6
  const OPEN_FILE_DONE := 7
  const CLOSE_FILE := 8
  const CLOSE_FILE_DONE := 9
  const READ_FILE := 10
  const READ_FILE_DONE := 11
  const FILE_SYSTEM_ERROR := -1

  const INT64_MIN: int := -0x8000_0000_0000_0000
  const INT64_MAX: int := 0x7FFF_FFFF_FFFF_FFFF
  const TWO_TO_32: int := 0x1_0000_0000

  predicate IsInt64(n: int) { INT64_MIN <= n <= INT64_MAX }

  predicate IsInt32(n: int) { -0x8000_0000 <= n < 0x8000_0000 }

  /** `static_cast<int32_t>`: the two's-complement wrap of an integer to 32 bits. */
  function Int32Of(n: int): (r: int)
    ensures IsInt32(r)
    ensures (r - n) % TWO_TO_32 == 0
    ensures IsInt32(n) ==> r == n
  {
    (n + 0x8000_0000) % TWO_TO_32 - 0x8000_0000
  }

  const BasicKeys: set<string> := {OPERATION, FILE_SYSTEM_ID, REQUEST_ID}

  /** The mandatory fields, exactly as given. */
  function CreateBasicRequest(operation: int, fileSystemId: string, requestId: string): (m: Message)
    ensures m.Keys == BasicKeys
    ensures Get(m, OPERATION) == Some(Int(operation))
    ensures Get(m, FILE_SYSTEM_ID) == Some(Str(fileSystemId))
    ensures Get(m, REQUEST_ID) == Some(Str(requestId))
  {
    map[OPERATION := Int(operation), FILE_SYSTEM_ID := Str(fileSystemId), REQUEST_ID := Str(requestId)]
  }

  function ReadMetadataDoneResponse(fileSystemId: string, requestId: string, metadata: Metadata.Entry)
    : (m: Message)
    ensures JsRequest.Extends(m, CreateBasicRequest(READ_METADATA_DONE, fileSystemId, requestId), {METADATA})
    ensures Get(m, METADATA) == Some(Dictionary(metadata))
  {
    CreateBasicRequest(READ_METADATA_DONE, fileSystemId, requestId)[METADATA := Dictionary(metadata)]
  }

  /** The offset goes as decimal text; the length is cut to an int32. */
  function ReadChunkRequest(fileSystemId: string, requestId: string, offset: int, length: int): (m: Message)
    ensures JsRequest.Extends(m, CreateBasicRequest(READ_CHUNK, fileSystemId, requestId), {OFFSET, LENGTH})
    ensures NumberOf(Get(m, OFFSET)) == Some(offset)
    ensures Get(m, LENGTH) == Some(Int(Int32Of(length)))
  {
    CreateBasicRequest(READ_CHUNK, fileSystemId, requestId)[OFFSET := Str(Decimal.IntToString(offset))]
      [LENGTH := Int(Int32Of(length))]
  }

  function OpenFileDoneResponse(fileSystemId: string, requestId: string): (m: Message)
    ensures JsRequest.Extends(m, CreateBasicRequest(OPEN_FILE_DONE, fileSystemId, requestId), {})
  {
    CreateBasicRequest(OPEN_FILE_DONE, fileSystemId, requestId)
  }

  function CloseFileDoneResponse(fileSystemId: string, requestId: string, openRequestId: string): (m: Message)
    ensures JsRequest.Extends(m, CreateBasicRequest(CLOSE_FILE_DONE, fileSystemId, requestId), {OPEN_REQUEST_ID})
    ensures Get(m, OPEN_REQUEST_ID) == Some(Str(openRequestId))
  {
    CreateBasicRequest(CLOSE_FILE_DONE, fileSystemId, requestId)[OPEN_REQUEST_ID := Str(openRequestId)]
  }

  function ReadFileDoneResponse(fileSystemId: string, requestId: string, buffer: seq<byte>, hasMoreData: bool)
    : (m: Message)
    ensures JsRequest.Extends(m, CreateBasicRequest(READ_FILE_DONE, fileSystemId, requestId),
                              {READ_FILE_DATA, HAS_MORE_DATA})
    ensures Get(m, READ_FILE_DATA) == Some(Buffer(buffer))
    ensures Get(m, HAS_MORE_DATA) == Some(Bool(hasMoreData))
  {
    CreateBasicRequest(READ_FILE_DONE, fileSystemId, requestId)[READ_FILE_DATA := Buffer(buffer)]
      [HAS_MORE_DATA := Bool(hasMoreData)]
  }

  function FileSystemError(fileSystemId: string, requestId: string, error: string): (m: Message)
    ensures JsRequest.Extends(m, CreateBasicRequest(FILE_SYSTEM_ERROR, fileSystemId, requestId), {ERROR})
    ensures Get(m, ERROR) == Some(Str(error))
  {
    CreateBasicRequest(FILE_SYSTEM_ERROR, fileSystemId, requestId)[ERROR := Str(error)]
  }

  // ---- Reading an int64_t back with `std::stringstream >>` ----

  /** `isspace` in the C locale. */
  predicate IsSpace(c: char)
  {
    c == ' ' || c == '\t' || c == '\n' || c == '\r' || c == '\U{B}' || c == '\U{C}'
  }

  function SkipSpace(s: string): (t: string)
    ensures |t| <= |s| && t == s[|s| - |t|..]
    ensures t != [] ==> !IsSpace(t[0])
  {
    if s != [] && IsSpace(s[0]) then SkipSpace(s[1..]) else s
  }

  /** The length of the run of digits that starts the text. */
  function DigitRun(s: string): (n: nat)
    ensures n <= |s| && Decimal.AllDigits(s[..n])
    ensures n < |s| ==> !Decimal.IsDigit(s[n])
  {
    if s != [] && Decimal.IsDigit(s[0]) then
      var n := 1 + DigitRun(s[1..]);
      assert s[..n] == [s[0]] + s[1..][..n - 1];
      n
    else 0
  }

  function Clamp64(v: int): (r: int)
    ensures IsInt64(r)
    ensures IsInt64(v) ==> r == v
  {
    if v < INT64_MIN then INT64_MIN else if v > INT64_MAX then INT64_MAX else v
  }

  /**
   * `ss >> int64_value` (C++11): leading white space is skipped, an optional
   * sign and the digits after it are read; no digit gives 0, a value out of
   * range gives the nearest bound.
   */
  function StreamInt64(s: string): (r: int)
    ensures IsInt64(r)
  {
    var t := SkipSpace(s);
    var signed := t != [] && (t[0] == '-' || t[0] == '+');
    var body := if signed then t[1..] else t;
    var n := DigitRun(body);
    if n == 0 then 0
    else
      var magnitude := Decimal.DigitsValue(body[..n]) as int;
      Clamp64(if signed && t[0] == '-' then -magnitude else magnitude)
  }

  /** `dictionary.Get(key).AsString()`, which is empty for a value that is not text, then `>>`. */
  function GetInt64FromString(m: Message, key: string): (r: int)
    ensures IsInt64(r)
    ensures key !in m ==> r == 0
  {
    match Get(m, key)
    case Some(Str(s)) => StreamInt64(s)
    case _ => StreamInt64("")
  }

  lemma {:induction false} DigitRunOfDigits(s: string)
    requires Decimal.AllDigits(s)
    ensures DigitRun(s) == |s|
    decreases |s|
  {
    if s != [] {
      DigitRunOfDigits(s[1..]);
    }
  }

  /** Reading back the decimal text of any int64 value gives that value. */
  lemma StreamInt64RoundTrip(n: int)
    requires IsInt64(n)
    ensures StreamInt64(Decimal.IntToString(n)) == n
  {
    var s := Decimal.IntToString(n);
    assert SkipSpace(s) == s;
    if s[0] == '-' {
      DigitRunOfDigits(s[1..]);
      assert s[1..][..|s| - 1] == s[1..];
    } else {
      DigitRunOfDigits(s);
      assert s[..|s|] == s;
    }
  }

  /** The offset and length fields of a JavaScript read-file request parse back to the numbers sent. */
  lemma ReadFileRequestFieldsParse(fileSystemId: string, requestId: int, openRequestId: int, offset: int,
                                   length: int)
    requires IsInt64(offset) && IsInt64(length)
    ensures GetInt64FromString(JsRequest.ReadFileRequest(fileSystemId, requestId, openRequestId, offset, length),
                               OFFSET) == offset
    ensures GetInt64FromString(JsRequest.ReadFileRequest(fileSystemId, requestId, openRequestId, offset, length),
                               LENGTH) == length
  {
    StreamInt64RoundTrip(offset);
    StreamInt64RoundTrip(length);
  }
}
