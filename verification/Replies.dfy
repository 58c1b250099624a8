/** The reply to a command the server does not know quotes its name, and a name
    may hold any text. */
module Replies {
  import opened Bytes
  import opened Resp
  import opened Commands
  import RoundTrip

  function Request(name: bytes): Value {
    Array([BulkString(name)])
  }

  /** The reply to `Unknown(name)`. */
  function UnknownReply(name: bytes): Value {
    Error("unknown command '" + name + "'")
  }

  lemma {:induction false} Utf8Upper(s: bytes)
    ensures Utf8(s) ==> Utf8(Upper(s))
    decreases |s|
  {
    if s != [] && Utf8Head(s) > 0 {
      var n := Utf8Head(s);
      assert Upper(s)[n..] == Upper(s[n..]);
      assert Utf8Head(Upper(s)) == n;
      Utf8Upper(s[n..]);
    }
  }

  lemma UpperLines(s: bytes)
    ensures HasCrlf(Upper(s)) <==> HasCrlf(s)
  {
    assert forall i :: CrlfAt(Upper(s), i) <==> CrlfAt(s, i);
  }

  lemma QuotedLines(name: bytes)
    ensures HasCrlf(UnknownReply(name).text) <==> HasCrlf(name)
  {
    var head := "unknown command '";
    var text := UnknownReply(name).text;
    assert forall i :: CrlfAt(name, i) ==> CrlfAt(text, i + |head|);
    if i :| CrlfAt(text, i) {
      assert CrlfAt(name, i - |head|);
    }
  }

  /** The client reads the reply as one error, quoting the name, if and only if
      the name it sent holds no CRLF. */
  lemma UnknownReplyExactly(name: bytes, rest: bytes)
    requires Utf8(name) && FromValue(Request(name)) == Err(Unknown(Upper(name)))
    ensures var reply := UnknownReply(Upper(name));
            Parse(Serialize(reply) + rest) == Frame(Error("ERR " + reply.text), |Serialize(reply)|)
            <==> !HasCrlf(name)
  {
    hide Parse, Utf8, FromValue, Serialize;
    Utf8Upper(name);
    NoText();
    var quote: bytes := "'";
    Utf8AsciiPrefix(quote, []);
    assert quote + [] == quote;
    Utf8Concat(Upper(name), quote);
    Utf8AsciiPrefix("unknown command '", Upper(name) + quote);
    var reply := UnknownReply(Upper(name));
    assert reply.text == "unknown command '" + (Upper(name) + quote);
    UpperLines(name);
    QuotedLines(Upper(name));
    RoundTrip.RoundTripExactly(reply, rest);
  }

  /** No command has a name with CRLF in it. */
  lemma UnknownName(name: bytes)
    requires Utf8(name) && '\r' in name
    ensures FromValue(Request(name)) == Err(Unknown(Upper(name)))
  {
    hide Utf8, Decode;
    var i :| 0 <= i < |name| && name[i] == '\r';
    assert Upper(name)[i] == '\r';
    NotACommand(Upper(name), i, Request(name).items);
  }

  lemma NotACommand(name: bytes, i: nat, items: seq<Value>)
    requires i < |name| && name[i] == '\r' && items != []
    ensures Decode(name, items) == Err(Unknown(name))
  {
    hide DecodeSet, DecodeCluster, DecodeAuth, Texts, TextAt, AsStr;
  }

  /** The error a client reads when the quoted text ends here. */
  function Quoting(name: bytes): bytes {
    "ERR unknown command '" + name
  }

  /** What a client makes of the reply to a name with CRLF in it: it takes the
      text up to the first CRLF for the whole, and the rest for the start of the
      next reply. */
  lemma ReplySplits(a: bytes, b: bytes)
    requires Utf8(a) && !HasCrlf(a) && Utf8(b)
    ensures var name := a + "\r\n" + b;
            var reply := Serialize(UnknownReply(Upper(name)));
            && FromValue(Request(name)) == Err(Unknown(Upper(name)))
            && reply == "-" + Quoting(Upper(a)) + "\r\n" + (Upper(b) + "'\r\n")
            && Parse(reply) == Frame(Error(Quoting(Upper(a))), |reply| - |b| - 3)
  {
    hide FromValue, Parse, Utf8, Serialize, Upper, Quoting, UnknownReply;
    NameSplits(a, b);
    UnknownName(a + "\r\n" + b);
    TextSplits(Upper(a), Upper(b));
    QuotingPlain(a);
    ErrorLine(Quoting(Upper(a)), Upper(b) + "'\r\n");
    assert |Upper(b)| == |b|;
  }

  lemma NameSplits(a: bytes, b: bytes)
    requires Utf8(a) && Utf8(b)
    ensures var name := a + "\r\n" + b;
            && Utf8(name) && '\r' in name && Upper(name) == Upper(a) + "\r\n" + Upper(b)
    ensures |Upper(b)| == |b|
  {
    hide Utf8;
    var tail: bytes := "\r\n" + b;
    Utf8AsciiPrefix("\r\n", b);
    Utf8Concat(a, tail);
    assert a + "\r\n" + b == a + tail;
    assert (a + "\r\n" + b)[|a|] == '\r';
  }

  lemma TextSplits(x: bytes, y: bytes)
    ensures Serialize(UnknownReply(x + "\r\n" + y)) == "-" + Quoting(x) + "\r\n" + (y + "'\r\n")
  {
  }

  lemma QuotingPlain(a: bytes)
    requires Utf8(a) && !HasCrlf(a)
    ensures Utf8(Quoting(Upper(a))) && !HasCrlf(Quoting(Upper(a)))
  {
    hide Utf8, Upper;
    Utf8Upper(a);
    UpperLines(a);
    Utf8AsciiPrefix("ERR unknown command '", Upper(a));
    LinesBehind("ERR unknown command '", Upper(a));
  }

  lemma LinesBehind(head: bytes, s: bytes)
    requires '\r' !in head
    ensures HasCrlf(head + s) ==> HasCrlf(s)
  {
    if i :| CrlfAt(head + s, i) {
      assert CrlfAt(s, i - |head|);
    }
  }

  lemma ErrorLine(line: bytes, tail: bytes)
    requires Utf8(line) && !HasCrlf(line)
    ensures Parse("-" + line + "\r\n" + tail) == Frame(Error(line), |line| + 3)
  {
    hide Utf8;
    RoundTrip.FirstLineOf('-', line, tail);
  }
}
