/**
 * The messages JavaScript and the native module exchange: a dictionary from
 * key names to values (a JavaScript object on one side, a pp::VarDictionary on
 * the other). A key that is not in the map reads as `undefined`.
 */
module Wire {
  import opened Wrappers
  import Metadata
  import Decimal

  newtype byte = b: int | 0 <= b < 256

  /** The kinds of value a message field holds. */
  datatype Value =
    | Int(i: int)                     // a JavaScript number, a pp::Var int32
    | Str(s: string)
    | Bool(b: bool)
    | Buffer(bytes: seq<byte>)        // an ArrayBuffer
    | Dictionary(entry: Metadata.Entry)

  type Message = map<string, Value>

  // Keys shared by the JavaScript and the native tables.
  const OPERATION := "operation"
  const FILE_SYSTEM_ID := "file_system_id"
  const REQUEST_ID := "request_id"
  const ERROR := "error"
  const METADATA := "metadata"
  const ARCHIVE_SIZE := "archive_size"
  const CHUNK_BUFFER := "chunk_buffer"
  const OFFSET := "offset"
  const LENGTH := "length"
  const INDEX := "index"
  const ENCODING := "encoding"
  const OPEN_REQUEST_ID := "open_request_id"
  const READ_FILE_DATA := "read_file_data"
  const HAS_MORE_DATA := "has_more_data"
  const PASSPHRASE := "passphrase"
  const SRC_FILE := "src_file"
  const SRC_LINE := "src_line"
  const SRC_FUNC := "src_func"
  const MESSAGE := "message"
  // Only in the native table.
  const FILE_PATH := "file_path"

  /** `message[key]`; `None` is `undefined`. */
  function Get(m: Message, key: string): (r: Option<Value>)
    ensures r.Some? <==> key in m
    ensures r.Some? ==> r.value == m[key]
  {
    if key in m then Some(m[key]) else None
  }

  /** JavaScript truthiness of a field. */
  predicate Truthy(v: Option<Value>)
  {
    match v
    case None => false
    case Some(Int(i)) => i != 0
    case Some(Str(s)) => s != ""
    case Some(Bool(b)) => b
    case Some(Buffer(_)) => true
    case Some(Dictionary(_)) => true
  }

  /**
   * `Number(s)` for text made of an optional sign and decimal digits (leading
   * zeros allowed); the empty text is 0. Any other text is treated as NaN.
   */
  function JsNumberText(s: string): (r: Option<int>)
    ensures Decimal.IsDecimal(s) ==> r == Some(Decimal.ParseDecimal(s))
  {
    if s == "" then Some(0)
    else if Decimal.AllDigits(s) then Some(Decimal.DigitsValue(s))
    else if |s| > 1 && (s[0] == '-' || s[0] == '+') && Decimal.AllDigits(s[1..]) then
      var magnitude := Decimal.DigitsValue(s[1..]) as int;
      Some(if s[0] == '-' then -magnitude else magnitude)
    else None
  }

  /** `Number(value)` of a field, `None` standing for NaN. */
  function NumberOf(v: Option<Value>): Option<int>
  {
    match v
    case None => None
    case Some(Int(i)) => Some(i)
    case Some(Str(s)) => JsNumberText(s)
    case Some(Bool(b)) => Some(if b then 1 else 0)
    case Some(Buffer(_)) => None
    case Some(Dictionary(_)) => None
  }
}
