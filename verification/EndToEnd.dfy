/** The replica process as a whole: from the first reply of the handshake to the
    commands executed, over any cut of the master's bytes into reads. */
module EndToEnd {
  import opened Bytes
  import opened Resp
  import opened RespLocality
  import opened RespBuffer
  import opened Commands
  import opened Framing
  import opened Sessions
  import opened Handshake
  import opened WriteLog
  import opened Replication
  import RoundTrip

  const Nothing := Progress(0, [], [])

  /** `run_replica_loop` on a connected socket. */
  method RunReplica(up: Upstream, auth: bool) returns (ok: bool, stream: ReplicaStream)
    requires up.NoEmptyReads()
    modifies up
    ensures var tail := AfterHandshake(old(Concat(up.pending)), auth);
            && ok == tail.Some?
            && (ok ==> exists es ::
                  && Framing.Run(tail.value) == es + Framing.Run(stream.buffer.data)
                  && tail.value == RawAll(es) + stream.buffer.data
                  && stream.State() == Perform(Nothing, es))
            && (ok && (forall e <- Framing.Run(tail.value) :: e.Took?) ==>
                  stream.State() == Perform(Nothing, Framing.Run(tail.value)))
  {
    hide AfterHandshake, Perform, Feed, Framing.Run;
    var buffer := new BytesMut([]);
    assert buffer.data + Concat(up.pending) == Concat(up.pending);
    ok := Handshake.Run(up, buffer, auth);
    stream := new ReplicaStream(buffer);
    if ok {
      ghost var buf, chunks := buffer.data, up.pending;
      FeedFollowsRun(buf, chunks);
      FeedConserves(buf, chunks);
      stream.Follow(up.pending);
      if forall e <- Framing.Run(buf + Concat(chunks)) :: e.Took? {
        FeedCatchesUp(buf, chunks);
      }
    }
  }

  // ----------------------------------------------------- what the master wrote

  /** The steps a replica takes over a log: one frame for each entry. */
  ghost function Events(log: seq<Logged>, now: nat): seq<Event>
    requires forall e <- log :: GoodEntry(e, now)
  {
    if log == [] then [] else
    assert GoodEntry(log[0], now);
    [Took(Parse(log[0].raw).value, log[0].raw)] + Events(log[1..], now)
  }

  function Cmds(log: seq<Logged>): seq<Command> {
    if log == [] then [] else [log[0].cmd] + Cmds(log[1..])
  }

  lemma {:induction false} RunOfLog(log: seq<Logged>, now: nat)
    requires forall e <- log :: GoodEntry(e, now)
    ensures Framing.Run(RawLog(log)) == Events(log, now)
    decreases |log|
  {
    hide Parse, FromValue;
    if log == [] {
      EmptyNeedsMore();
    } else {
      var e, stream := log[0], RawLog(log);
      assert e in log;
      assert stream[..|e.raw|] == e.raw && stream[|e.raw|..] == RawLog(log[1..]);
      FrameIsLocal(e.raw, stream);
      RunOfLog(log[1..], now);
    }
  }

  lemma {:induction false} EventsMean(log: seq<Logged>, now: nat)
    requires forall e <- log :: GoodEntry(e, now)
    ensures forall e <- Events(log, now) :: e.Took?
    ensures TookBytes(Events(log, now)) == |RawLog(log)| && Executed(Events(log, now)) == Cmds(log)
    ensures forall base :: Acks(Events(log, now), base) == []
    decreases |log|
  {
    hide Parse, FromValue;
    if log != [] {
      assert log[0] in log;
      EventsMean(log[1..], now);
      assert Events(log, now)[1..] == Events(log[1..], now);
    }
  }

  /** End to end: a replica that receives a master's handshake and then the bytes
      of its write log executes exactly the logged commands, in order, once each,
      and reports their length in bytes. RunReplica computes exactly this. */
  lemma ReplicaExecutesTheLog(auth: bool, replid: bytes, rdb: bytes, log: seq<Logged>, now: nat)
    requires Utf8(replid) && !HasCrlf(replid) && |rdb| <= I64_MAX
    requires forall e <- log :: GoodEntry(e, now)
    ensures AfterHandshake(Sent(auth, replid, rdb, RawLog(log)), auth) == Some(RawLog(log))
    ensures forall e <- Framing.Run(RawLog(log)) :: e.Took?
    ensures Perform(Nothing, Framing.Run(RawLog(log))) == Progress(|RawLog(log)|, [], Cmds(log))
  {
    hide AfterHandshake, Sent, Utf8, Framing.Run, GoodEntry, Executed, Acks, TookBytes, Perform;
    HandshakeLands(auth, replid, rdb, RawLog(log));
    RunOfLog(log, now);
    EventsMean(log, now);
    PerformMeans(Nothing, Events(log, now));
    assert Nothing.executed + Cmds(log) == Cmds(log);
  }

  // --------------------------------------------------- a pipeline of replies

  function Decoded(vs: seq<Value>): seq<Event> {
    if vs == [] then [] else [Took(RoundTrip.AsRead(vs[0]), Serialize(vs[0]))] + Decoded(vs[1..])
  }

  lemma {:induction false} RunOfPipeline(vs: seq<Value>)
    requires forall v <- vs :: RoundTrip.WellTyped(v) && RoundTrip.LinesClean(v)
    ensures Framing.Run(SerializeAll(vs)) == Decoded(vs)
    decreases |vs|
  {
    hide Parse, Serialize;
    if vs == [] {
      EmptyNeedsMore();
    } else {
      var head, rest := Serialize(vs[0]), SerializeAll(vs[1..]);
      RoundTrip.RoundTrip(vs[0], rest);
      assert (head + rest)[..|head|] == head && (head + rest)[|head|..] == rest;
      RunOfPipeline(vs[1..]);
    }
  }

  lemma {:induction false} DecodedTook(vs: seq<Value>)
    ensures forall e <- Decoded(vs) :: e.Took?
  {
    if vs != [] {
      DecodedTook(vs[1..]);
    }
  }

  /** A pipeline of serialized values decodes to the same values, however the
      bytes are cut into reads. */
  lemma PipelineDecodes(vs: seq<Value>, chunks: seq<bytes>)
    requires forall v <- vs :: RoundTrip.WellTyped(v) && RoundTrip.LinesClean(v)
    requires Concat(chunks) == SerializeAll(vs)
    ensures Feed([], chunks).events == Decoded(vs)
  {
    hide Feed, Framing.Run, SerializeAll, Decoded;
    RunOfPipeline(vs);
    DecodedTook(vs);
    assert [] + Concat(chunks) == Concat(chunks);
    FeedCatchesUp([], chunks);
  }
}
