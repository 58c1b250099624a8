/** What a protocol error does to a client connection. The error empties the
    buffer and the connection goes on with the next read, so from there on the
    frames may depend on where the reads were cut. This module proves exactly
    for which streams they do not. */
module FramingFaults {
  import opened Bytes
  import opened Resp
  import opened Framing
  import RoundTrip

  /** A read that ends at position c makes the first protocol error visible. */
  ghost predicate Shown(s: bytes, c: int) {
    0 <= c <= |s| && Serve(s[..c]).end == Fault
  }

  /** The connection finds no frame, wherever in r it starts. */
  ghost predicate Quiet(r: bytes) {
    forall k :: 0 <= k <= |r| ==> Serve(r[k..]).frames == []
  }

  /** Whatever follows the error without being lost holds no frame. */
  ghost predicate FaultIsLast(s: bytes) {
    forall c :: Shown(s, c) ==> !Parse(s[c..]).Frame?
  }

  /** Every cut of s into reads hands over the same frames as s in one read. */
  ghost predicate CutsAgree(s: bytes) {
    forall chunks | Concat(chunks) == s && (forall c <- chunks :: c != []) ::
      Session([], chunks, |s|).frames == Serve(s).frames
  }

  lemma NoFrameServed(buf: bytes)
    ensures Serve(buf).frames == [] <==> !Parse(buf).Frame?
  {
    hide Parse, IsQuit;
  }

  lemma QuitHandsAFrame(buf: bytes)
    ensures Serve(buf).end == QuitSeen ==> Serve(buf).frames != []
  {
  }

  lemma ShownStays(s: bytes, c: int, d: int)
    requires Shown(s, c) && c <= d <= |s|
    ensures Shown(s, d)
  {
    hide Serve;
    ServeExtends(s[..c], s[c..d]);
    assert s[..c] + s[c..d] == s[..d];
  }

  lemma {:induction false} QuietSession(buf: bytes, chunks: seq<bytes>, max: nat)
    requires Quiet(buf + Concat(chunks))
    ensures Session(buf, chunks, max).frames == []
    decreases |chunks|
  {
    hide Serve;
    if chunks != [] {
      var now, later := buf + chunks[0], Concat(chunks[1..]);
      var w := buf + Concat(chunks);
      assert w == now + later && w[0..] == w;
      ServeExtends(now, later);
      ServeConserves(now);
      QuitHandsAFrame(now);
      assert Serve(now).frames == [];
      var left := Serve(now).left;
      if Serve(now).end == Waiting {
        assert left == now;
      } else {
        assert left + later == w[|now|..];
        forall k | 0 <= k <= |left + later| ensures Serve((left + later)[k..]).frames == [] {
          assert (left + later)[k..] == w[|now| + k..];
        }
      }
      QuietSession(left, chunks[1..], max);
    }
  }

  lemma {:induction false} AfterFaultQuiet(s: bytes, c: int)
    requires FaultIsLast(s) && Shown(s, c)
    ensures Quiet(s[c..])
  {
    hide Serve, Parse;
    forall k | 0 <= k <= |s[c..]| ensures Serve(s[c..][k..]).frames == [] {
      ShownStays(s, c, c + k);
      NoFrameServed(s[c + k..]);
      assert s[c..][k..] == s[c + k..];
    }
  }

  /** The condition carries over to the part of the stream not yet served. */
  lemma {:induction false} FaultIsLastAfter(now: bytes, later: bytes)
    requires Serve(now).end == Waiting
    requires FaultIsLast(now + later)
    ensures FaultIsLast(Serve(now).left + later)
  {
    hide Serve, Parse;
    var left, raw, w := Serve(now).left, RawHanded(Serve(now).frames), now + later;
    ServeConserves(now);
    WaitingNeedsMore(now);
    forall c | Shown(left + later, c) ensures !Parse((left + later)[c..]).Frame? {
      if c < |left| {
        ServeExtends((left + later)[..c], left[c..]);
        assert (left + later)[..c] + left[c..] == left;
        WaitingStays(left);
        assert false;
      }
      var t := later[..c - |left|];
      ServeExtends(now, t);
      assert (left + later)[..c] == left + t;
      assert w[..|raw| + c] == now + t;
      assert Shown(w, |raw| + c);
      assert (left + later)[c..] == w[|raw| + c..];
    }
  }

  lemma WaitingStays(left: bytes)
    requires Parse(left) == NeedMore
    ensures Serve(left).end == Waiting
  {
    hide Parse;
  }

  lemma {:induction false} QuietTailAgrees(buf: bytes, chunks: seq<bytes>, max: nat)
    requires Parse(buf) == NeedMore && |buf + Concat(chunks)| <= max
    requires FaultIsLast(buf + Concat(chunks))
    ensures Session(buf, chunks, max).frames == Serve(buf + Concat(chunks)).frames
    decreases |chunks|
  {
    hide Serve, Parse;
    var w := buf + Concat(chunks);
    if chunks == [] {
      assert w == buf;
      ServeOfWaiting(buf);
    } else {
      var now, later := buf + chunks[0], Concat(chunks[1..]);
      assert w == now + later;
      ServeExtends(now, later);
      ServeConserves(now);
      WaitingNeedsMore(now);
      if Serve(now).end == Waiting {
        FaultIsLastAfter(now, later);
        QuietTailAgrees(Serve(now).left, chunks[1..], max);
      } else if Serve(now).end == Fault {
        assert w[..|now|] == now && w[|now|..] == later && [] + later == later;
        AfterFaultQuiet(w, |now|);
        QuietSession([], chunks[1..], max);
      }
    }
  }

  lemma ServeOfWaiting(buf: bytes)
    requires Parse(buf) == NeedMore
    ensures Serve(buf).frames == []
  {
    hide Parse;
  }

  /** Cutting right where the error shows hands over what follows as well. */
  lemma CutAtFault(s: bytes, c: int)
    requires Shown(s, c) && c < |s|
    ensures Session([], [s[..c], s[c..]], |s|).frames == Serve(s).frames + Serve(s[c..]).frames
  {
    hide Serve;
    var a: bytes, b: bytes := s[..c], s[c..];
    assert a + b == s && [] + a == a && [] + b == b;
    ServeExtends(a, b);
    ServeConserves(a);
    var chunks: seq<bytes> := [a, b];
    assert chunks[1..] == [b] && chunks[1..][1..] == [];
    assert Session([], [b], |s|).frames == Serve(b).frames;
  }

  /** All cuts agree if and only if no frame follows the first error outside
      the read that shows it. */
  lemma CutsAgreeExactly(s: bytes)
    ensures CutsAgree(s) <==> FaultIsLast(s)
  {
    hide Serve, Session, Parse;
    if FaultIsLast(s) {
      forall chunks | Concat(chunks) == s && (forall c <- chunks :: c != [])
        ensures Session([], chunks, |s|).frames == Serve(s).frames
      {
        assert [] + Concat(chunks) == s;
        EmptyNeedsMore();
        QuietTailAgrees([], chunks, |s|);
      }
    }
    if CutsAgree(s) {
      forall c | Shown(s, c) ensures !Parse(s[c..]).Frame? {
        EmptyNeedsMore();
        if c < |s| {
          NoFrameServed(s[c..]);
          ShownPositive(s, c);
          var chunks: seq<bytes> := [s[..c], s[c..]];
          assert chunks[1..] == [s[c..]] && chunks[1..][1..] == [];
          assert Concat(chunks[1..]) == s[c..];
          assert Concat(chunks) == s;
          CutAtFault(s, c);
        }
      }
    }
  }

  lemma ShownPositive(s: bytes, c: int)
    requires Shown(s, c)
    ensures c > 0
  {
  }

  /** A stream for which the cuts do matter: one stray byte, then PING. */
  lemma CutsMayDisagree()
    ensures !CutsAgree("?" + "*1\r\n$4\r\nPING\r\n")
  {
    var s: bytes := "?" + "*1\r\n$4\r\nPING\r\n";
    assert s[..1] == "?" && s[1..] == "*1\r\n$4\r\nPING\r\n";
    CutsAgreeExactly(s);
    assert Shown(s, 1);
    PingIsAFrame();
    NoFrameServed(s[1..]);
  }

  lemma PingIsAFrame()
    ensures Serve("*1\r\n$4\r\nPING\r\n").frames != []
  {
    hide Parse, IsQuit, Utf8;
    var ping := Array([BulkString("PING")]);
    PingEncoded(ping);
    RoundTrip.RoundTrip(ping, []);
    assert Serialize(ping) + [] == Serialize(ping);
  }

  lemma PingEncoded(ping: Value)
    requires ping == Array([BulkString("PING")])
    ensures Serialize(ping) == "*1\r\n$4\r\nPING\r\n"
  {
    assert Decimal(1) == "1" && Decimal(4) == "4";
    assert SerializeAll(ping.items) == Serialize(BulkString("PING"));
  }
}
