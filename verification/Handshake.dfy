/** The replica's handshake readers: for any cut of the master's replies into
    reads, the command stream starts at exactly the next byte. */
module Handshake {
  import opened Bytes
  import opened RespBuffer
  import opened Framing

  /** The socket: the reads still to come; an empty read means end of stream. */
  class Upstream {
    var pending: seq<bytes>

    constructor (chunks: seq<bytes>)
      ensures pending == chunks
    {
      pending := chunks;
    }

    ghost predicate NoEmptyReads()
      reads this
    {
      forall i :: 0 <= i < |pending| ==> pending[i] != []
    }

    method Receive() returns (chunk: bytes)
      requires NoEmptyReads()
      modifies this
      ensures NoEmptyReads()
      ensures chunk + Concat(pending) == Concat(old(pending))
      ensures chunk == [] ==> Concat(pending) == []
      ensures chunk != [] ==> |pending| < |old(pending)|
    {
      if pending == [] {
        return [];
      }
      chunk := pending[0];
      pending := pending[1..];
    }
  }

  // ------------------------------------------ the readers on a whole stream

  function AfterLine(s: bytes): Option<bytes> {
    var i := FindCrlf(s, 0);
    if i == |s| then None else Some(s[i + 2..])
  }

  function AfterFullResync(s: bytes): Option<bytes> {
    var i := FindCrlf(s, 0);
    if i == |s| || !Utf8(s[..i + 2]) || !("+FULLRESYNC" <= s[..i + 2]) then None else Some(s[i + 2..])
  }

  /** The snapshot: "$", its length, CRLF, that many bytes, no closing CRLF. */
  function AfterRdb(s: bytes): Option<bytes> {
    if s == [] || s[0] != '$' then None else
    var i := FindCrlf(s, 0);
    if i == |s| || !Utf8(s[1..i]) then None else
    match ParseUnsigned(s[1..i], U64_MAX)
    case None => None
    case Some(n) => if |s| < i + 2 + n then None else Some(s[i + 2 + n..])
  }

  /** All replies in order: PING, AUTH if a password is set, REPLCONF twice,
      PSYNC, the snapshot. */
  function AfterHandshake(s: bytes, auth: bool): Option<bytes> {
    var s :- AfterLine(s);
    var s :- if auth then AfterLine(s) else Some(s);
    var s :- AfterLine(s);
    var s :- AfterLine(s);
    var s :- AfterFullResync(s);
    AfterRdb(s)
  }

  lemma CrlfExtends(s: bytes, t: bytes)
    requires FindCrlf(s, 0) < |s|
    ensures FindCrlf(s + t, 0) == FindCrlf(s, 0)
  {
    var i, j := FindCrlf(s, 0), FindCrlf(s + t, 0);
    assert CrlfAt(s + t, i);
    assert CrlfAt(s, j);
  }

  // ------------------------------------------------- the readers on a socket

  /** Waits until the buffer holds a CRLF; false at the end of the stream. */
  method AwaitLine(up: Upstream, buffer: BytesMut) returns (pos: Option<nat>)
    requires up.NoEmptyReads()
    modifies up, buffer
    ensures buffer.data + Concat(up.pending) == old(buffer.data + Concat(up.pending))
    ensures up.NoEmptyReads()
    ensures var s := old(buffer.data + Concat(up.pending));
            && (pos.None? <==> FindCrlf(s, 0) == |s|)
            && (pos.Some? ==> pos.value == FindCrlf(s, 0) == FindCrlf(buffer.data, 0) < |buffer.data|)
  {
    ghost var s := buffer.data + Concat(up.pending);
    while true
      invariant buffer.data + Concat(up.pending) == s
      invariant up.NoEmptyReads()
      decreases |up.pending|
    {
      var i := FindCrlf(buffer.data, 0);
      if i < |buffer.data| {
        CrlfExtends(buffer.data, Concat(up.pending));
        return Some(i);
      }
      var chunk := up.Receive();
      if chunk == [] {
        assert buffer.data + [] == buffer.data;
        return None;
      }
      assert buffer.data + (chunk + Concat(up.pending)) == (buffer.data + chunk) + Concat(up.pending);
      buffer.Extend(chunk);
    }
  }

  method ReadSimpleResponse(up: Upstream, buffer: BytesMut) returns (ok: bool)
    requires up.NoEmptyReads()
    modifies up, buffer
    ensures up.NoEmptyReads()
    ensures var r := AfterLine(old(buffer.data + Concat(up.pending)));
            ok == r.Some? && (ok ==> buffer.data + Concat(up.pending) == r.value)
  {
    ghost var s := buffer.data + Concat(up.pending);
    var pos := AwaitLine(up, buffer);
    ok := pos.Some?;
    if ok {
      assert (buffer.data + Concat(up.pending))[pos.value + 2..]
          == buffer.data[pos.value + 2..] + Concat(up.pending);
      buffer.Advance(pos.value + 2);
    }
  }

  method ReadFullResync(up: Upstream, buffer: BytesMut) returns (ok: bool)
    requires up.NoEmptyReads()
    modifies up, buffer
    ensures up.NoEmptyReads()
    ensures var r := AfterFullResync(old(buffer.data + Concat(up.pending)));
            ok == r.Some? && (ok ==> buffer.data + Concat(up.pending) == r.value)
  {
    var pos := AwaitLine(up, buffer);
    if pos.None? {
      return false;
    }
    ghost var s := buffer.data + Concat(up.pending);
    var line := buffer.SplitTo(pos.value + 2);
    assert line == s[..pos.value + 2];
    assert buffer.data + Concat(up.pending) == s[pos.value + 2..];
    ok := Utf8(line) && "+FULLRESYNC" <= line;
  }

  method ReadRdb(up: Upstream, buffer: BytesMut) returns (ok: bool)
    requires up.NoEmptyReads()
    modifies up, buffer
    ensures var r := AfterRdb(old(buffer.data + Concat(up.pending)));
            ok == r.Some? && (ok ==> buffer.data + Concat(up.pending) == r.value)
  {
    ghost var s := buffer.data + Concat(up.pending);
    while true
      invariant buffer.data + Concat(up.pending) == s
      invariant up.NoEmptyReads()
      decreases |up.pending|
    {
      if buffer.data != [] && buffer.data[0] == '$' {
        var pos := FindCrlf(buffer.data, 0);
        if pos < |buffer.data| {
          ok := ReadSnapshot(up, buffer, pos);
          return;
        }
      }
      var chunk := up.Receive();
      if chunk == [] {
        assert buffer.data + [] == buffer.data;
        return false;
      }
      assert buffer.data + (chunk + Concat(up.pending)) == (buffer.data + chunk) + Concat(up.pending);
      buffer.Extend(chunk);
    }
  }

  /** The header is complete: its length, then that many bytes. */
  method ReadSnapshot(up: Upstream, buffer: BytesMut, pos: nat) returns (ok: bool)
    requires up.NoEmptyReads()
    requires buffer.data != [] && buffer.data[0] == '$'
    requires pos == FindCrlf(buffer.data, 0) < |buffer.data|
    modifies up, buffer
    ensures var r := AfterRdb(old(buffer.data + Concat(up.pending)));
            ok == r.Some? && (ok ==> buffer.data + Concat(up.pending) == r.value)
  {
    hide FindCrlf, Utf8, ParseUnsigned;
    ghost var s := buffer.data + Concat(up.pending);
    CrlfExtends(buffer.data, Concat(up.pending));
    var header := buffer.SplitTo(pos + 2);
    assert header[1..pos] == s[1..pos];
    assert buffer.data + Concat(up.pending) == s[pos + 2..];
    if !Utf8(header[1..pos]) {
      return false;
    }
    var len := ParseUnsigned(header[1..pos], U64_MAX);
    if len.None? {
      return false;
    }
    ok := ReadPayload(up, buffer, len.value);
  }

  /** The inner loop of the snapshot reader: n bytes, then drop them. */
  method ReadPayload(up: Upstream, buffer: BytesMut, n: nat) returns (ok: bool)
    requires up.NoEmptyReads()
    modifies up, buffer
    ensures var s := old(buffer.data + Concat(up.pending));
            ok == (n <= |s|) && (ok ==> buffer.data + Concat(up.pending) == s[n..])
  {
    ghost var s := buffer.data + Concat(up.pending);
    while |buffer.data| < n
      invariant buffer.data + Concat(up.pending) == s
      invariant up.NoEmptyReads()
      decreases |up.pending|
    {
      var chunk := up.Receive();
      if chunk == [] {
        return false;
      }
      assert buffer.data + (chunk + Concat(up.pending)) == (buffer.data + chunk) + Concat(up.pending);
      buffer.Extend(chunk);
    }
    assert s[n..] == buffer.data[n..] + Concat(up.pending);
    buffer.Advance(n);
    ok := true;
  }

  /** Steps 1 to 5 of `run_replica_loop`. */
  method Run(up: Upstream, buffer: BytesMut, auth: bool) returns (ok: bool)
    requires up.NoEmptyReads()
    modifies up, buffer
    ensures var r := AfterHandshake(old(buffer.data + Concat(up.pending)), auth);
            ok == r.Some? && (ok ==> buffer.data + Concat(up.pending) == r.value)
  {
    hide AfterLine, AfterFullResync, AfterRdb;
    ok := ReadSimpleResponse(up, buffer);
    if !ok { return; }
    if auth {
      ok := ReadSimpleResponse(up, buffer);
      if !ok { return; }
    }
    ok := ReadSimpleResponse(up, buffer);
    if !ok { return; }
    ok := ReadSimpleResponse(up, buffer);
    if !ok { return; }
    ok := ReadFullResync(up, buffer);
    if !ok { return; }
    ok := ReadRdb(up, buffer);
  }

  // ---------------------------------------------------- the master's replies

  /** What a master sends: the replies of the handshake, then the stream. */
  function Sent(auth: bool, replid: bytes, rdb: bytes, stream: bytes): bytes {
    var snapshot := "$" + Decimal(|rdb|) + "\r\n" + rdb + stream;
    var resync := "+FULLRESYNC " + replid + " 0\r\n" + snapshot;
    var oks := Ok(Ok(resync));
    "+PONG" + "\r\n" + if auth then Ok(oks) else oks
  }

  function Ok(rest: bytes): bytes {
    "+OK" + "\r\n" + rest
  }

  lemma LineOf(line: bytes, rest: bytes)
    requires !HasCrlf(line)
    ensures FindCrlf(line + "\r\n" + rest, 0) == |line|
    ensures AfterLine(line + "\r\n" + rest) == Some(rest)
  {
    var s := line + "\r\n" + rest;
    assert CrlfAt(s, |line|);
    assert forall i :: i < |line| && CrlfAt(s, i) ==> CrlfAt(line, i);
    assert s[|line| + 2..] == rest;
  }

  /** A CRLF in a + b lies in a, in b, or across the seam. */
  lemma CrlfInConcat(a: bytes, b: bytes)
    requires !HasCrlf(a) && !HasCrlf(b)
    requires b == [] || b[0] != '\n'
    ensures !HasCrlf(a + b)
  {
    forall j ensures !CrlfAt(a + b, j) {
      assert !CrlfAt(a, j) && !CrlfAt(b, j - |a|);
    }
  }

  lemma RdbOf(rdb: bytes, rest: bytes)
    requires |rdb| <= I64_MAX
    ensures AfterRdb("$" + Decimal(|rdb|) + "\r\n" + rdb + rest) == Some(rest)
  {
    hide DigitsValue, Utf8;
    var n := |rdb|;
    var digits := Decimal(n);
    DecimalRoundTrip(n);
    assert DecimalInt(n) == digits;
    assert IsDigit(digits[0]);
    var line := "$" + digits;
    CrlfInConcat("$", digits);
    LineOf(line, rdb + rest);
    DecimalFits(digits, n);
    RdbSplit(line, digits, rdb, rest);
  }

  lemma DecimalFits(digits: bytes, n: nat)
    requires digits == Decimal(n) && n <= U64_MAX
    ensures ParseUnsigned(digits, U64_MAX) == Some(n)
  {
    hide DigitsValue;
    DecimalValue(n);
    assert IsDigit(digits[0]);
  }

  lemma RdbSplit(line: bytes, digits: bytes, rdb: bytes, rest: bytes)
    requires line == "$" + digits && Utf8(digits) && ParseUnsigned(digits, U64_MAX) == Some(|rdb|)
    requires FindCrlf(line + "\r\n" + (rdb + rest), 0) == |line|
    ensures AfterRdb("$" + digits + "\r\n" + rdb + rest) == Some(rest)
  {
    hide ParseUnsigned, Utf8, FindCrlf;
    var s := "$" + digits + "\r\n" + rdb + rest;
    assert s == line + "\r\n" + (rdb + rest);
    assert s[1..|line|] == digits;
    assert s[|line| + 2 + |rdb|..] == rest;
  }

  lemma FullResyncOf(replid: bytes, rest: bytes)
    requires Utf8(replid) && !HasCrlf(replid)
    ensures AfterFullResync("+FULLRESYNC " + replid + " 0\r\n" + rest) == Some(rest)
  {
    hide Utf8, FindCrlf;
    var head: bytes, tail: bytes := "+FULLRESYNC ", " 0";
    var line := head + (replid + tail);
    CrlfInConcat(replid, tail);
    if replid != [] && replid[0] == '\n' {
      assert forall j :: CrlfAt(line, j) ==> CrlfAt(replid + tail, j - |head|);
    } else {
      CrlfInConcat(head, replid + tail);
    }
    LineOf(line, rest);
    Utf8Line(head, replid);
    var s := head + replid + " 0\r\n" + rest;
    assert s == line + "\r\n" + rest;
    assert s[..|line| + 2] == head + (replid + " 0\r\n");
    assert s[|line| + 2..] == rest;
  }

  lemma Utf8Line(head: bytes, replid: bytes)
    requires head == "+FULLRESYNC " && Utf8(replid)
    ensures Utf8(head + (replid + " 0\r\n"))
  {
    hide Utf8;
    Utf8AsciiPrefix(" 0\r\n", []);
    assert " 0\r\n" + [] == " 0\r\n";
    NoText();
    Utf8Concat(replid, " 0\r\n");
    Utf8AsciiPrefix(head, replid + " 0\r\n");
  }

  lemma OkLine(rest: bytes)
    ensures AfterLine(Ok(rest)) == Some(rest)
  {
    LineOf("+OK", rest);
  }

  /** After a master's replies, whatever their cuts, the next byte read is the
      first byte of the command stream. */
  lemma HandshakeLands(auth: bool, replid: bytes, rdb: bytes, stream: bytes)
    requires Utf8(replid) && !HasCrlf(replid) && |rdb| <= I64_MAX
    ensures AfterHandshake(Sent(auth, replid, rdb, stream), auth) == Some(stream)
  {
    hide AfterLine, AfterFullResync, AfterRdb, Utf8, Decimal, Ok;
    var snapshot := "$" + Decimal(|rdb|) + "\r\n" + rdb + stream;
    var resync := "+FULLRESYNC " + replid + " 0\r\n" + snapshot;
    OkLine(resync);
    OkLine(Ok(resync));
    OkLine(Ok(Ok(resync)));
    LineOf("+PONG", if auth then Ok(Ok(Ok(resync))) else Ok(Ok(resync)));
    FullResyncOf(replid, snapshot);
    RdbOf(rdb, stream);
  }
}
