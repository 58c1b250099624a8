/** The frames that steer a connection: QUIT, REPLCONF GETACK and its answer, the
    payload limit, and what a replica asks of a master. */
module Control {
  import opened Bytes
  import opened Resp
  import opened Commands
  import opened Decoding
  import opened Framing
  import opened Sessions
  import EndToEnd
  import RespLimits
  import RoundTrip

  // -------------------------------------------------------------------- QUIT

  /** QUIT, in any case and with any arguments, and nothing else. */
  lemma QuitExactly(v: Value)
    ensures IsQuit(v) <==> Calls(v, "QUIT")
  {
    hide Decode, Upper;
    BareDecodes(v);
    if IsQuit(v) {
      var name := AsStr(v.items[0]).value;
      QuitArm(Upper(name), v.items);
      CaseForgotten(name, "QUIT");
      CapitalStays("QUIT");
    }
  }

  lemma QuitArm(name: bytes, items: seq<Value>)
    requires items != [] && Decode(name, items) == Ok(Quit)
    ensures name == "QUIT"
  {
    hide AsStr, Texts, SetOptions, Upper;
  }

  /** A QUIT frame is handed on and closes the connection; what is behind it stays
      unread. */
  lemma QuitCloses(v: Value, rest: bytes)
    requires Calls(v, "QUIT") && RoundTrip.WellTyped(v) && RoundTrip.LinesClean(v) && !RoundTrip.HasErrors(v)
    ensures Serve(Serialize(v) + rest) == Served([Handed(v, Serialize(v))], rest, QuitSeen)
  {
    hide Parse, Calls, IsQuit;
    QuitExactly(v);
    RoundTrip.RoundTripExactly(v, rest);
    var s := Serialize(v);
    assert (s + rest)[..|s|] == s && (s + rest)[|s|..] == rest;
  }

  /** A buffer is refused exactly if it is longer than the limit. */
  lemma LimitExactly(buf: bytes, chunk: bytes, max: nat)
    ensures Session(buf, [chunk], max).end == TooLarge <==> |buf| + |chunk| > max
  {
    hide Serve;
    assert [chunk][1..] == [];
  }

  // ---------------------------------------------------------- REPLCONF GETACK

  /** The frames that are acknowledged: REPLCONF whose first text is GETACK, both in
      any case. */
  lemma GetAckExactly(v: Value)
    ensures IsGetAck(FromValue(v)) <==>
            Calls(v, "REPLCONF") && Texts(v.items[1..]) != [] && SameLetters(Texts(v.items[1..])[0], "GETACK")
  {
    hide Decode, Upper, Texts;
    CapitalStays("GETACK");
    if IsGetAck(FromValue(v)) {
      var name := AsStr(v.items[0]).value;
      ReplConfArm(Upper(name), v.items);
      CaseForgotten(name, "REPLCONF");
      CapitalStays("REPLCONF");
    }
    if Calls(v, "REPLCONF") {
      ListsDecode(v);
      if Texts(v.items[1..]) != [] {
        CaseForgotten(Texts(v.items[1..])[0], "GETACK");
      }
    }
  }

  lemma ReplConfArm(name: bytes, items: seq<Value>)
    requires items != [] && Decode(name, items).Ok? && Decode(name, items).cmd.ReplConf?
    ensures name == "REPLCONF" && Decode(name, items) == Ok(ReplConf(Texts(items[1..])))
  {
    hide AsStr, Texts, SetOptions, Upper;
  }

  lemma {:induction false} AcksAppend(a: seq<Event>, b: seq<Event>, base: nat)
    ensures Acks(a + b, base) == Acks(a, base) + Acks(b, base + TookBytes(a))
    decreases |a|
  {
    hide FromValue, IsGetAck;
    if a == [] {
      assert a + b == b;
    } else {
      assert (a + b)[1..] == a[1..] + b;
      AcksAppend(a[1..], b, if a[0].Took? then base + |a[0].raw| else base);
    }
  }

  /** A stream of values, a GETACK, more values: one of the acknowledgements is for
      that GETACK, and it says how many bytes the stream had up to its end. */
  lemma GetAckAnswered(before: seq<Value>, ack: Value, after: seq<Value>)
    requires forall v <- before + [ack] + after :: RoundTrip.WellTyped(v) && RoundTrip.LinesClean(v)
    requires !RoundTrip.HasErrors(ack) && IsGetAck(FromValue(ack))
    ensures var acks := Acks(Run(SerializeAll(before + [ack] + after)), 0);
            |SerializeAll(before + [ack])| in acks
  {
    hide Run, SerializeAll, EndToEnd.Decoded, FromValue, IsGetAck, Acks;
    var all := before + [ack] + after;
    EndToEnd.RunOfPipeline(all);
    DecodedAppend(before + [ack], after);
    DecodedAppend(before, [ack]);
    DecodedBytes(before);
    SerializeAppend(before, [ack]);
    DecodedOne(ack);
    var a, b, c := EndToEnd.Decoded(before), EndToEnd.Decoded([ack]), EndToEnd.Decoded(after);
    AcksAppend(a + b, c, 0);
    AcksAppend(a, b, 0);
    AckOne(ack, TookBytes(a));
  }

  lemma {:induction false} DecodedAppend(a: seq<Value>, b: seq<Value>)
    ensures EndToEnd.Decoded(a + b) == EndToEnd.Decoded(a) + EndToEnd.Decoded(b)
  {
    hide Serialize;
    if a == [] {
      assert a + b == b;
    } else {
      assert (a + b)[1..] == a[1..] + b;
      DecodedAppend(a[1..], b);
    }
  }

  lemma {:induction false} SerializeAppend(a: seq<Value>, b: seq<Value>)
    ensures SerializeAll(a + b) == SerializeAll(a) + SerializeAll(b)
  {
    hide Serialize;
    if a == [] {
      assert a + b == b;
    } else {
      assert (a + b)[1..] == a[1..] + b;
      SerializeAppend(a[1..], b);
    }
  }

  lemma {:induction false} DecodedBytes(vs: seq<Value>)
    ensures TookBytes(EndToEnd.Decoded(vs)) == |SerializeAll(vs)|
  {
    hide Serialize;
    if vs != [] {
      DecodedBytes(vs[1..]);
      assert EndToEnd.Decoded(vs)[1..] == EndToEnd.Decoded(vs[1..]);
    }
  }

  lemma DecodedOne(v: Value)
    requires !RoundTrip.HasErrors(v)
    ensures EndToEnd.Decoded([v]) == [Took(v, Serialize(v))] && SerializeAll([v]) == Serialize(v)
  {
    RoundTrip.AsReadIdentity(v);
  }

  lemma AckOne(v: Value, base: nat)
    requires IsGetAck(FromValue(v))
    ensures Acks([Took(v, Serialize(v))], base) == [base + |Serialize(v)|]
  {
    hide FromValue, IsGetAck;
  }

  // -------------------------------------------------- what a replica sends

  function Text(s: bytes): bytes {
    "$" + Decimal(|s|) + "\r\n" + s + "\r\n"
  }

  /** The acknowledgement a replica sends. */
  function AckReply(offset: nat): bytes {
    "*3\r\n" + "$8\r\nREPLCONF\r\n" + "$3\r\nACK\r\n" + Text(Decimal(offset))
  }

  /** The last request of the handshake. */
  const PSYNC_REQUEST: bytes := "*3\r\n" + "$5\r\nPSYNC\r\n" + "$1\r\n?\r\n" + "$2\r\n-1\r\n"

  function Three(a: bytes, b: bytes, c: bytes): Value {
    Array([BulkString(a), BulkString(b), BulkString(c)])
  }

  lemma ThreeOnWire(a: bytes, b: bytes, c: bytes)
    ensures Serialize(Three(a, b, c)) == "*3\r\n" + Text(a) + Text(b) + Text(c)
  {
    hide Decimal, SerializeAll;
    Digit(3);
    var items := Three(a, b, c).items;
    assert items == [BulkString(a)] + [BulkString(b)] + [BulkString(c)];
    SerializeAppend([BulkString(a)] + [BulkString(b)], [BulkString(c)]);
    SerializeAppend([BulkString(a)], [BulkString(b)]);
    OneText(a);
    OneText(b);
    OneText(c);
  }

  lemma OneText(a: bytes)
    ensures SerializeAll([BulkString(a)]) == Text(a)
  {
    assert SerializeAll([BulkString(a)]) == Serialize(BulkString(a)) + SerializeAll([BulkString(a)][1..]);
  }

  lemma Digit(n: nat)
    requires n < 10
    ensures |Decimal(n)| == 1 && Decimal(n)[0] as int == '0' as int + n
  {
  }

  lemma ThreeTravels(a: bytes, b: bytes, c: bytes, rest: bytes)
    requires |a| <= I64_MAX && |b| <= I64_MAX && |c| <= I64_MAX
    ensures Parse(Serialize(Three(a, b, c)) + rest) == Frame(Three(a, b, c), |Serialize(Three(a, b, c))|)
  {
    hide Parse, Serialize;
    var v := Three(a, b, c);
    assert forall x <- v.items :: x.BulkString? && |x.data| <= I64_MAX;
    assert !RoundTrip.HasErrors(v);
    RoundTrip.RoundTripExactly(v, rest);
  }

  lemma Arguments(a: bytes, b: bytes, c: bytes)
    requires Utf8(b) && Utf8(c)
    ensures Texts(Three(a, b, c).items[1..]) == [b, c]
  {
    hide Utf8, Texts;
    assert Three(a, b, c).items[1..] == [BulkString(b)] + [BulkString(c)];
    TextsAppend([BulkString(b)], [BulkString(c)]);
    TextsOne(BulkString(b));
    TextsOne(BulkString(c));
    assert Says(BulkString(b), b) && Says(BulkString(c), c);
  }

  lemma AckSplit(offset: nat)
    ensures AckReply(offset) == "*3\r\n" + Text("REPLCONF") + Text("ACK") + Text(Decimal(offset))
  {
    hide Decimal, Text;
    AckTexts();
  }

  lemma AckTexts()
    ensures Text("REPLCONF") == "$8\r\nREPLCONF\r\n" && Text("ACK") == "$3\r\nACK\r\n"
  {
    hide Decimal;
    Digit(8);
    Digit(3);
  }

  /** The master reads the acknowledgement as one REPLCONF ACK with the offset. */
  lemma AckReads(offset: nat, rest: bytes)
    requires offset <= U64_MAX
    ensures var v := Three("REPLCONF", "ACK", Decimal(offset));
            && Parse(AckReply(offset) + rest) == Frame(v, |AckReply(offset)|)
            && FromValue(v) == Ok(ReplConf(["ACK", Decimal(offset)]))
  {
    hide Parse, FromValue, Decimal, Serialize, Text, AckReply, Three;
    ThreeOnWire("REPLCONF", "ACK", Decimal(offset));
    AckSplit(offset);
    RespLimits.DecimalShort(offset);
    ThreeTravels("REPLCONF", "ACK", Decimal(offset), rest);
    AckMeans(Decimal(offset));
  }

  lemma AckMeans(offset: bytes)
    requires Ascii(offset)
    ensures FromValue(Three("REPLCONF", "ACK", offset)) == Ok(ReplConf(["ACK", offset]))
  {
    hide FromValue, Texts, Calls, Utf8, Three;
    AsciiBulk("ACK");
    AsciiBulk(offset);
    CallsItself("REPLCONF", "ACK", offset);
    ListsDecode(Three("REPLCONF", "ACK", offset));
    Arguments("REPLCONF", "ACK", offset);
  }

  lemma AsciiBulk(s: bytes)
    requires Ascii(s)
    ensures Utf8(s)
  {
    Utf8AsciiPrefix(s, []);
    assert s + [] == s;
  }

  lemma CallsItself(name: bytes, b: bytes, c: bytes)
    requires Ascii(name)
    ensures Calls(Three(name, b, c), name) && Three(name, b, c).Array? && Three(name, b, c).items != []
  {
    hide Utf8;
    AsciiText(name);
  }

  lemma PsyncSplit()
    ensures PSYNC_REQUEST == "*3\r\n" + Text("PSYNC") + Text("?") + Text("-1")
  {
    hide Decimal;
    Digit(5);
    Digit(1);
    Digit(2);
  }

  /** And it reads the last request of the handshake as a PSYNC from the start. */
  lemma PsyncReads(rest: bytes)
    ensures var v := Three("PSYNC", "?", "-1");
            && Parse(PSYNC_REQUEST + rest) == Frame(v, |PSYNC_REQUEST|)
            && FromValue(v) == Ok(Psync("?", "-1"))
  {
    hide Parse, FromValue, Decimal, Serialize, Text, Three;
    ThreeOnWire("PSYNC", "?", "-1");
    PsyncSplit();
    ThreeTravels("PSYNC", "?", "-1", rest);
    AsciiBulk("?");
    AsciiBulk("-1");
    PsyncMeans("?", "-1");
  }

  lemma PsyncMeans(id: bytes, offset: bytes)
    requires Utf8(id) && Utf8(offset)
    ensures FromValue(Three("PSYNC", id, offset)) == Ok(Psync(id, offset))
  {
    hide FromValue, Calls, Utf8;
    CallsItself("PSYNC", id, offset);
    var v := Three("PSYNC", id, offset);
    assert Says(v.items[1], id) && Says(v.items[2], offset);
    PsyncDecodes(v);
  }
}
