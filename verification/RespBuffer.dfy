/** The codec as the program runs it: on a buffer that `parse` consumes and
    `serialize` extends in place. Each method is proved against the functions
    of module Resp. */
module RespBuffer {
  import opened Bytes
  import opened Resp

  /** `BytesMut`: a growable buffer consumed from the front. */
  class BytesMut {
    var data: bytes

    constructor (d: bytes)
      ensures data == d
    {
      data := d;
    }

    method Clone() returns (c: BytesMut)
      ensures fresh(c) && c.data == data
    {
      c := new BytesMut(data);
    }

    method Advance(n: nat)
      requires n <= |data|
      modifies this
      ensures data == old(data)[n..]
    {
      data := data[n..];
    }

    method SplitTo(n: nat) returns (head: bytes)
      requires n <= |data|
      modifies this
      ensures head == old(data)[..n] && data == old(data)[n..]
    {
      head := data[..n];
      data := data[n..];
    }

    method Extend(s: bytes)
      modifies this
      ensures data == old(data) + s
    {
      data := data + s;
    }
  }

  datatype Parsed = Ok(value: Option<Value>) | Err(error: ParseError)

  /** The reply and the buffer left behind are those of an outcome: a value
      takes exactly its bytes, "need more" takes none. */
  ghost predicate Answers(o: Outcome, before: bytes, r: Parsed, after: bytes) {
    match o
    case Frame(v, n) => r == Ok(Some(v)) && n <= |before| && after == before[n..]
    case NeedMore => r == Ok(None) && after == before
    case Failed(e, n) => r == Err(e) && n <= |before| && after == before[n..]
  }

  method GetLine(src: bytes) returns (r: Option<Line>)
    requires src != [] && src[0] != '\r'
    ensures r == FirstLine(src)
  {
    var i := 0;
    while i + 1 < |src|
      invariant 0 <= i <= |src|
      invariant forall j :: 0 <= j < i ==> !CrlfAt(src, j)
    {
      if src[i] == '\r' && src[i + 1] == '\n' {
        assert CrlfAt(src, i);
        return Some(Line(src[1..i], i + 2));
      }
      i := i + 1;
    }
    assert forall j :: !CrlfAt(src, j);
    r := None;
  }

  method GetNumber(src: bytes) returns (r: Header)
    requires src != [] && src[0] != '\r'
    ensures r == ParseHeader(src)
  {
    var line := GetLine(src);
    if line.None? {
      return NoLine;
    }
    if !Utf8(line.value.payload) {
      return BadNumber(BadUtf8);
    }
    var n := ParseI64(line.value.payload);
    r := if n.None? then BadNumber(InvalidInteger) else Number(n.value, line.value.len);
  }

  method ReadText(src: BytesMut) returns (r: Parsed)
    requires src.data != [] && src.data[0] != '\r'
    modifies src
    ensures Answers(ParseText(old(src.data)), old(src.data), r, src.data)
  {
    var prefix := src.data[0];
    var line := GetLine(src.data);
    if line.None? {
      return Ok(None);
    }
    var s := line.value.payload;
    if !Utf8(s) {
      return Err(BadUtf8);
    }
    src.Advance(line.value.len);
    r := Ok(Some(if prefix == '+' then SimpleString(s) else Error(s)));
  }

  method ReadInteger(src: BytesMut) returns (r: Parsed)
    requires src.data != [] && src.data[0] != '\r'
    modifies src
    ensures Answers(ParseInteger(old(src.data)), old(src.data), r, src.data)
  {
    var h := GetNumber(src.data);
    match h
    case NoLine => r := Ok(None);
    case BadNumber(e) => r := Err(e);
    case Number(n, len) =>
      src.Advance(len);
      r := Ok(Some(Integer(n)));
  }

  /** The length is checked before anything is taken; the closing CRLF is
      checked after header and payload are gone. */
  method ReadBulk(src: BytesMut) returns (r: Parsed)
    requires src.data != [] && src.data[0] != '\r'
    modifies src
    ensures Answers(ParseBulk(old(src.data)), old(src.data), r, src.data)
  {
    var h := GetNumber(src.data);
    match h
    case NoLine => r := Ok(None);
    case BadNumber(e) => r := Err(e);
    case Number(n, len) =>
      if n == -1 {
        src.Advance(len);
        return Ok(Some(NullBulk));
      }
      if n < 0 {
        return Err(NegativeLength);
      }
      if |src.data| < len + n + 2 {
        return Ok(None);
      }
      src.Advance(len);
      var payload := src.SplitTo(n);
      assert payload == old(src.data)[len..len + n];
      assert src.data == old(src.data)[len + n..];
      assert CrlfAt(src.data, 0) == CrlfAt(old(src.data), len + n);
      if |src.data| < 2 || src.data[0] != '\r' || src.data[1] != '\n' {
        return Err(MissingCrlf);
      }
      src.Advance(2);
      r := Ok(Some(BulkString(payload)));
  }

  /** `Value::parse`. */
  method Read(src: BytesMut) returns (r: Parsed)
    modifies src
    ensures Answers(Parse(old(src.data)), old(src.data), r, src.data)
    decreases |src.data|, 1
  {
    hide ParseItems, ParseText, ParseInteger, ParseBulk, ParseArray;
    if src.data == [] {
      return Ok(None);
    }
    match src.data[0]
    case '+' => r := ReadText(src);
    case '-' => r := ReadText(src);
    case ':' => r := ReadInteger(src);
    case '$' => r := ReadBulk(src);
    case '*' => r := ReadArray(src);
    case other => r := Err(UnknownPrefix(other));
  }

  /** What parsing `count` values gives once the first of them are known. */
  ghost function After(vs: seq<Value>, used: nat, rest: ItemsOutcome): ItemsOutcome {
    match rest
    case Items(ws, n) => Items(vs + ws, used + n)
    case other => other
  }

  /** One more element, or the end of the loop. */
  lemma AfterStep(vs: seq<Value>, used: nat, src: bytes, count: nat)
    requires count > 0
    ensures After(vs, used, ParseItems(src, count)) ==
            match Parse(src)
            case NeedMore => ItemsNeedMore
            case Failed(e, _) => ItemsFailed(e)
            case Frame(v, n) => After(vs + [v], used + n, ParseItems(src[n..], count - 1))
  {
    hide Parse;
    if Parse(src).Frame? {
      var v := Parse(src).value;
      assert forall ws: seq<Value> :: vs + ([v] + ws) == vs + [v] + ws;
    }
  }

  lemma AfterEnds(vs: seq<Value>, used: nat, src: bytes, r: ItemsOutcome)
    ensures After(vs, used, ParseItems(src, 0)) == Items(vs, used) && After([], 0, r) == r
  {
    assert vs + [] == vs;
    assert r.Items? ==> [] + r.values == r.values;
  }

  /** The element loop: values are taken from `temp` until n are there. */
  method ReadItems(temp: BytesMut, n: nat) returns (r: ItemsOutcome)
    modifies temp
    ensures r == ParseItems(old(temp.data), n)
    ensures r.Items? ==> temp.data == old(temp.data)[r.consumed..]
    decreases |temp.data|, 2
  {
    hide Parse, ParseItems, After;
    var start := temp.data;
    var elements: seq<Value> := [];
    var i: nat := 0;
    ghost var used: nat := 0;
    AfterEnds([], 0, [], ParseItems(start, n));
    while i < n
      invariant 0 <= i <= n && used <= |start|
      invariant temp.data == start[used..]
      invariant ParseItems(start, n) == After(elements, used, ParseItems(temp.data, n - i))
    {
      AfterStep(elements, used, temp.data, n - i);
      used := used + if Parse(temp.data).Frame? then Parse(temp.data).consumed else 0;
      var e := Read(temp);
      match e
      case Err(err) => return ItemsFailed(err);
      case Ok(None) => return ItemsNeedMore;
      case Ok(Some(v)) =>
        elements := elements + [v];
        i := i + 1;
    }
    AfterEnds(elements, used, temp.data, ItemsNeedMore);
    r := Items(elements, |start| - |temp.data|);
  }

  /** Elements are read from a copy, so an incomplete array takes nothing. */
  method ReadArray(src: BytesMut) returns (r: Parsed)
    requires src.data != [] && src.data[0] != '\r'
    modifies src
    ensures Answers(ParseArray(old(src.data)), old(src.data), r, src.data)
    decreases |src.data|, 0
  {
    hide Parse, ParseItems;
    var h := GetNumber(src.data);
    match h
    case NoLine => r := Ok(None);
    case BadNumber(e) => r := Err(e);
    case Number(n, len) =>
      if n == -1 {
        src.Advance(len);
        return Ok(Some(NullArray));
      }
      if n < 0 {
        return Err(NegativeCount);
      }
      var temp := src.Clone();
      temp.Advance(len);
      var items := ReadItems(temp, n);
      match items
      case ItemsNeedMore => r := Ok(None);
      case ItemsFailed(e) => r := Err(e);
      case Items(elements, _) =>
        src.Advance(|src.data| - |temp.data|);
        r := Ok(Some(Array(elements)));
  }

  /** `Value::serialize` appends the encoding of v to the buffer. */
  method Write(v: Value, buf: BytesMut)
    modifies buf
    ensures buf.data == old(buf.data) + Serialize(v)
    decreases v, 1
  {
    hide DecimalInt, Decimal, SerializeAll;
    match v
    case SimpleString(s) => buf.Extend("+"); buf.Extend(s); buf.Extend("\r\n");
    case Error(s) => buf.Extend("-ERR "); buf.Extend(s); buf.Extend("\r\n");
    case Integer(i) => buf.Extend(":"); buf.Extend(DecimalInt(i)); buf.Extend("\r\n");
    case NullBulk => buf.Extend("$-1\r\n");
    case BulkString(data) => WriteBulk(data, buf);
    case NullArray => buf.Extend("*-1\r\n");
    case Array(items) =>
      buf.Extend("*"); buf.Extend(Decimal(|items|)); buf.Extend("\r\n");
      WriteAll(items, buf);
  }

  method WriteBulk(data: bytes, buf: BytesMut)
    modifies buf
    ensures buf.data == old(buf.data) + ("$" + Decimal(|data|) + "\r\n" + data + "\r\n")
  {
    hide Decimal;
    buf.Extend("$");
    buf.Extend(Decimal(|data|));
    buf.Extend("\r\n");
    buf.Extend(data);
    buf.Extend("\r\n");
  }

  method WriteAll(items: seq<Value>, buf: BytesMut)
    modifies buf
    ensures buf.data == old(buf.data) + SerializeAll(items)
    decreases items, 0
  {
    hide Serialize;
    var i := 0;
    while i < |items|
      invariant 0 <= i <= |items|
      invariant buf.data + SerializeAll(items[i..]) == old(buf.data) + SerializeAll(items)
    {
      ghost var before := buf.data;
      Write(items[i], buf);
      assert items[i..][0] == items[i] && items[i..][1..] == items[i + 1..];
      assert buf.data + SerializeAll(items[i + 1..]) == before + SerializeAll(items[i..]);
      i := i + 1;
    }
  }
}
