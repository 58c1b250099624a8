/** Serializing and parsing undo each other, in any context: exactly for the
    values whose simple and error strings hold no CRLF. */
module RoundTrip {
  import opened Bytes
  import opened Resp

  /** What the types of the program guarantee: texts are UTF-8, integers fit
      i64, lengths fit isize. */
  ghost predicate WellTyped(v: Value) {
    match v
    case SimpleString(s) => Utf8(s)
    case Error(s) => Utf8(s)
    case Integer(i) => I64_MIN <= i <= I64_MAX
    case BulkString(data) => |data| <= I64_MAX
    case Array(items) => |items| <= I64_MAX && forall v <- items :: WellTyped(v)
    case _ => true
  }

  /** No simple or error string inside v holds a CRLF. */
  ghost predicate LinesClean(v: Value) {
    match v
    case SimpleString(s) => !HasCrlf(s)
    case Error(s) => !HasCrlf(s)
    case Array(items) => forall v <- items :: LinesClean(v)
    case _ => true
  }

  /** What comes back: `serialize` writes "-ERR " in front of every error text. */
  function AsRead(v: Value): Value {
    match v
    case Error(s) => Error("ERR " + s)
    case Array(items) => Array(AllAsRead(items))
    case _ => v
  }

  function AllAsRead(vs: seq<Value>): (r: seq<Value>)
    ensures |r| == |vs|
  {
    if vs == [] then [] else [AsRead(vs[0])] + AllAsRead(vs[1..])
  }

  /** The first line of `prefix + s + CRLF + rest` is s when s holds no CRLF. */
  lemma FirstLineOf(p: byte, s: bytes, rest: bytes)
    requires p != '\r' && !HasCrlf(s)
    ensures FirstLine([p] + s + "\r\n" + rest) == Some(Line(s, |s| + 3))
  {
    var src := [p] + s + "\r\n" + rest;
    var i := FindCrlf(src, 0);
    assert CrlfAt(src, |s| + 1);
    assert i <= |s| + 1;
    if i < |s| + 1 {
      assert CrlfAt(s, i - 1);
      assert false;
    }
    assert src[1..i] == s;
  }

  lemma HeaderOf(p: byte, n: int, rest: bytes)
    requires p != '\r' && I64_MIN <= n <= I64_MAX
    ensures ParseHeader([p] + DecimalInt(n) + "\r\n" + rest) == Number(n, |DecimalInt(n)| + 3)
  {
    DecimalRoundTrip(n);
    FirstLineOf(p, DecimalInt(n), rest);
  }

  lemma TextRoundTrip(v: Value, rest: bytes)
    requires WellTyped(v) && LinesClean(v) && (v.SimpleString? || v.Error?)
    ensures Parse(Serialize(v) + rest) == Frame(AsRead(v), |Serialize(v)|)
  {
    var p: byte := if v.Error? then '-' else '+';
    var s := if v.Error? then "ERR " + v.text else v.text;
    assert Serialize(v) + rest == [p] + s + "\r\n" + rest;
    Utf8AsciiPrefix("ERR ", v.text);
    if HasCrlf(s) {
      var j :| CrlfAt(s, j);
      assert CrlfAt(v.text, if v.Error? then j - 4 else j);
      assert false;
    }
    FirstLineOf(p, s, rest);
  }

  lemma BulkRoundTrip(data: bytes, rest: bytes)
    requires |data| <= I64_MAX
    ensures var v := BulkString(data);
            Parse(Serialize(v) + rest) == Frame(v, |Serialize(v)|)
  {
    hide ParseHeader, Decimal;
    var head := "$" + DecimalInt(|data|) + "\r\n";
    HeaderOf('$', |data|, data + "\r\n" + rest);
    var src := head + (data + "\r\n" + rest);
    PayloadAfter(head, data, rest);
    assert Serialize(BulkString(data)) + rest == src;
  }

  lemma PayloadAfter(head: bytes, data: bytes, rest: bytes)
    ensures var src := head + (data + "\r\n" + rest);
            && src[|head|..|head| + |data|] == data && CrlfAt(src, |head| + |data|)
  {
  }

  /** Round trip in context: whatever follows, the value comes back, with
      exactly its own bytes consumed. */
  lemma {:induction false} RoundTrip(v: Value, rest: bytes)
    requires WellTyped(v) && LinesClean(v)
    ensures Parse(Serialize(v) + rest) == Frame(AsRead(v), |Serialize(v)|)
    decreases v, 1
  {
    hide ParseHeader, ParseItems;
    var src := Serialize(v) + rest;
    match v
    case SimpleString(_) => TextRoundTrip(v, rest);
    case Error(_) => TextRoundTrip(v, rest);
    case Integer(i) =>
      assert src == ":" + DecimalInt(i) + "\r\n" + rest;
      HeaderOf(':', i, rest);
    case NullBulk =>
      assert DecimalInt(-1) == "-1";
      assert src == "$" + DecimalInt(-1) + "\r\n" + rest;
      HeaderOf('$', -1, rest);
    case BulkString(data) => BulkRoundTrip(data, rest);
    case NullArray =>
      assert DecimalInt(-1) == "-1";
      assert src == "*" + DecimalInt(-1) + "\r\n" + rest;
      HeaderOf('*', -1, rest);
    case Array(items) =>
      var n := |items|;
      assert src == "*" + DecimalInt(n) + "\r\n" + (SerializeAll(items) + rest);
      HeaderOf('*', n, SerializeAll(items) + rest);
      assert src[|DecimalInt(n)| + 3..] == SerializeAll(items) + rest;
      ItemsRoundTrip(items, rest);
  }

  lemma {:induction false} ItemsRoundTrip(vs: seq<Value>, rest: bytes)
    requires forall v <- vs :: WellTyped(v) && LinesClean(v)
    ensures ParseItems(SerializeAll(vs) + rest, |vs|) == Items(AllAsRead(vs), |SerializeAll(vs)|)
    decreases vs, 0
  {
    hide Parse;
    if vs != [] {
      var head, tail := vs[0], vs[1..];
      var src := SerializeAll(vs) + rest;
      assert src == Serialize(head) + (SerializeAll(tail) + rest);
      RoundTrip(head, SerializeAll(tail) + rest);
      assert src[|Serialize(head)|..] == SerializeAll(tail) + rest;
      ItemsRoundTrip(tail, rest);
    }
  }

  /** Whatever the parser accepts is well typed and its texts hold no CRLF. */
  lemma {:induction false} ParsedIsClean(src: bytes)
    requires Parse(src).Frame?
    ensures LinesClean(Parse(src).value)
    ensures |src| <= I64_MAX ==> WellTyped(Parse(src).value)
    decreases |src|, 0
  {
    hide Utf8, ParseI64;
    var i := FindCrlf(src, 0);
    assert !HasCrlf(src[1..i]) by {
      assert forall j :: CrlfAt(src[1..i], j) ==> CrlfAt(src, j + 1);
    }
    if src[0] == '*' && ParseHeader(src).n >= 0 {
      ParsedItemsAreClean(src[ParseHeader(src).len..], ParseHeader(src).n);
    }
  }

  lemma {:induction false} ParsedItemsAreClean(src: bytes, count: nat)
    requires ParseItems(src, count).Items?
    ensures forall v <- ParseItems(src, count).values ::
              LinesClean(v) && (|src| <= I64_MAX ==> WellTyped(v))
    decreases |src|, 1
  {
    hide Parse;
    if count > 0 {
      ParsedIsClean(src);
      ParsedItemsAreClean(src[Parse(src).consumed..], count - 1);
    }
  }

  ghost predicate HasErrors(v: Value) {
    match v
    case Error(_) => true
    case Array(items) => exists v <- items :: HasErrors(v)
    case _ => false
  }

  lemma {:induction false} AsReadIdentity(v: Value)
    ensures AsRead(v) == v <==> !HasErrors(v)
    decreases v, 1
  {
    match v
    case Array(items) => AllAsReadIdentity(items);
    case _ =>
  }

  lemma {:induction false} AllAsReadIdentity(vs: seq<Value>)
    ensures AllAsRead(vs) == vs <==> !(exists v <- vs :: HasErrors(v))
    decreases vs, 0
  {
    if vs != [] {
      AsReadIdentity(vs[0]);
      AllAsReadIdentity(vs[1..]);
      assert AllAsRead(vs)[0] == AsRead(vs[0]) && AllAsRead(vs)[1..] == AllAsRead(vs[1..]);
      assert forall v <- vs :: v == vs[0] || v in vs[1..];
    }
  }

  lemma {:induction false} AsReadClean(v: Value)
    ensures LinesClean(AsRead(v)) ==> LinesClean(v)
    decreases v, 1
  {
    match v
    case Error(s) =>
      if j :| CrlfAt(s, j) {
        assert CrlfAt("ERR " + s, j + 4);
      }
    case Array(items) => AllAsReadClean(items);
    case _ =>
  }

  lemma {:induction false} AllAsReadClean(vs: seq<Value>)
    ensures (forall v <- AllAsRead(vs) :: LinesClean(v)) ==> forall v <- vs :: LinesClean(v)
    decreases vs, 0
  {
    if vs != [] {
      AsReadClean(vs[0]);
      AllAsReadClean(vs[1..]);
      var r := AllAsRead(vs);
      assert r[0] == AsRead(vs[0]) && r[1..] == AllAsRead(vs[1..]);
      assert forall v <- vs :: v == vs[0] || v in vs[1..];
    }
  }

  /** The exact conditions. A value comes back, with "ERR " in front of its
      error texts, if and only if no text inside it holds a CRLF; it comes back
      unchanged if and only if it also holds no error. */
  lemma RoundTripExactly(v: Value, rest: bytes)
    requires WellTyped(v)
    ensures Parse(Serialize(v) + rest) == Frame(AsRead(v), |Serialize(v)|) <==> LinesClean(v)
    ensures Parse(Serialize(v) + rest) == Frame(v, |Serialize(v)|) <==> LinesClean(v) && !HasErrors(v)
  {
    hide Parse;
    if LinesClean(v) {
      RoundTrip(v, rest);
    }
    if Parse(Serialize(v) + rest).Frame? {
      ParsedIsClean(Serialize(v) + rest);
    }
    AsReadClean(v);
    AsReadIdentity(v);
  }
}
