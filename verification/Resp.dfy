/** The RESP2 value type, its serializer and its incremental parser.
    `Parse` is the parser as a function of the buffer contents; module
    RespBuffer holds the code that consumes a buffer in place. */
module Resp {
  import opened Bytes

  datatype Value =
    | SimpleString(text: bytes)
    | Error(text: bytes)
    | Integer(i: int)
    | NullBulk
    | BulkString(data: bytes)
    | NullArray
    | Array(items: seq<Value>)

  datatype ParseError =
    | UnknownPrefix(b: byte)
    | InvalidInteger
    | BadUtf8
    | NegativeLength
    | NegativeCount
    | MissingCrlf

  /** What one call of the parser answers. `consumed` counts the bytes taken
      from the buffer; a failed call may have taken some too. */
  datatype Outcome =
    | Frame(value: Value, consumed: nat)
    | NeedMore
    | Failed(error: ParseError, consumed: nat)

  datatype ItemsOutcome =
    | Items(values: seq<Value>, consumed: nat)
    | ItemsNeedMore
    | ItemsFailed(error: ParseError)

  /** A complete first line: the bytes between the prefix and the CRLF, and
      the length of the line with prefix and CRLF. */
  datatype Line = Line(payload: bytes, len: nat)

  // ------------------------------------------------------------ serializer

  function Serialize(v: Value): bytes {
    match v
    case SimpleString(s) => "+" + s + "\r\n"
    case Error(s) => "-ERR " + s + "\r\n"
    case Integer(i) => ":" + DecimalInt(i) + "\r\n"
    case NullBulk => "$-1\r\n"
    case BulkString(data) => "$" + Decimal(|data|) + "\r\n" + data + "\r\n"
    case NullArray => "*-1\r\n"
    case Array(items) => "*" + Decimal(|items|) + "\r\n" + SerializeAll(items)
  }

  function SerializeAll(vs: seq<Value>): bytes {
    if vs == [] then [] else Serialize(vs[0]) + SerializeAll(vs[1..])
  }

  // ---------------------------------------------------------------- parser

  function FirstLine(src: bytes): (r: Option<Line>)
    requires src != [] && src[0] != '\r'
    ensures r.Some? ==> 3 <= r.value.len <= |src|
  {
    var i := FindCrlf(src, 0);
    if i == |src| then None else Some(Line(src[1..i], i + 2))
  }

  function ParseText(src: bytes): (r: Outcome)
    requires src != [] && src[0] != '\r'
    ensures !r.NeedMore? ==> r.consumed <= |src|
    ensures r.Frame? ==> 3 <= r.consumed
  {
    match FirstLine(src)
    case None => NeedMore
    case Some(Line(s, n)) =>
      if !Utf8(s) then Failed(BadUtf8, 0)
      else if src[0] == '+' then Frame(SimpleString(s), n)
      else Frame(Error(s), n)
  }

  /** The number after the prefix, with the length of its line. */
  datatype Header = Number(n: int, len: nat) | NoLine | BadNumber(error: ParseError)

  function ParseHeader(src: bytes): (r: Header)
    requires src != [] && src[0] != '\r'
    ensures r.Number? ==> 3 <= r.len <= |src| && I64_MIN <= r.n <= I64_MAX
  {
    match FirstLine(src)
    case None => NoLine
    case Some(Line(s, len)) =>
      if !Utf8(s) then BadNumber(BadUtf8)
      else match ParseI64(s)
        case None => BadNumber(InvalidInteger)
        case Some(n) => Number(n, len)
  }

  function ParseInteger(src: bytes): (r: Outcome)
    requires src != [] && src[0] != '\r'
    ensures !r.NeedMore? ==> r.consumed <= |src|
    ensures r.Frame? ==> 3 <= r.consumed
  {
    match ParseHeader(src)
    case NoLine => NeedMore
    case BadNumber(e) => Failed(e, 0)
    case Number(n, len) => Frame(Integer(n), len)
  }

  function ParseBulk(src: bytes): (r: Outcome)
    requires src != [] && src[0] != '\r'
    ensures !r.NeedMore? ==> r.consumed <= |src|
    ensures r.Frame? ==> 3 <= r.consumed
  {
    match ParseHeader(src)
    case NoLine => NeedMore
    case BadNumber(e) => Failed(e, 0)
    case Number(n, len) =>
      if n == -1 then Frame(NullBulk, len)
      else if n < 0 then Failed(NegativeLength, 0)
      else if |src| < len + n + 2 then NeedMore
      else if !CrlfAt(src, len + n) then Failed(MissingCrlf, len + n)
      else Frame(BulkString(src[len..len + n]), len + n + 2)
  }

  function Parse(src: bytes): (r: Outcome)
    ensures !r.NeedMore? ==> src != [] && r.consumed <= |src|
    ensures r.Frame? ==> 3 <= r.consumed
    decreases |src|, 1
  {
    if src == [] then NeedMore
    else match src[0]
      case '+' => ParseText(src)
      case '-' => ParseText(src)
      case ':' => ParseInteger(src)
      case '$' => ParseBulk(src)
      case '*' => ParseArray(src)
      case other => Failed(UnknownPrefix(other), 0)
  }

  function ParseArray(src: bytes): (r: Outcome)
    requires src != [] && src[0] != '\r'
    ensures !r.NeedMore? ==> r.consumed <= |src|
    ensures r.Frame? ==> 3 <= r.consumed
    decreases |src|, 0
  {
    match ParseHeader(src)
    case NoLine => NeedMore
    case BadNumber(e) => Failed(e, 0)
    case Number(n, len) =>
      if n == -1 then Frame(NullArray, len)
      else if n < 0 then Failed(NegativeCount, 0)
      else match ParseItems(src[len..], n)
        case ItemsNeedMore => NeedMore
        case ItemsFailed(e) => Failed(e, 0)
        case Items(vs, used) => Frame(Array(vs), len + used)
  }

  /** `count` values one after the other. */
  function ParseItems(src: bytes, count: nat): (r: ItemsOutcome)
    ensures r.Items? ==> r.consumed <= |src| && |r.values| == count
    decreases |src|, 2
  {
    if count == 0 then Items([], 0)
    else match Parse(src)
      case NeedMore => ItemsNeedMore
      case Failed(e, _) => ItemsFailed(e)
      case Frame(v, n) =>
        match ParseItems(src[n..], count - 1)
        case Items(vs, used) => Items([v] + vs, n + used)
        case other => other
  }

  lemma EmptyNeedsMore()
    ensures Parse([]) == NeedMore
  {
  }
}
