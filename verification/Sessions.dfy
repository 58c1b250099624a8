/** The framing loops as the program runs them, on a buffer it consumes in
    place; each is proved to do what module Framing says. */
module Sessions {
  import opened Bytes
  import opened Resp
  import opened RespBuffer
  import opened Commands
  import opened Framing

  // ------------------------------------------- what a list of steps amounts to

  /** Bytes counted by the replica: those of the frames, not the dropped ones. */
  function TookBytes(es: seq<Event>): nat {
    if es == [] then 0 else (if es[0].Took? then |es[0].raw| else 0) + TookBytes(es[1..])
  }

  predicate IsGetAck(c: Decoded) {
    c.Ok? && c.cmd.ReplConf? && c.cmd.args != [] && Upper(c.cmd.args[0]) == "GETACK"
  }

  /** The offset acknowledged for each GETACK: all frame bytes up to the end of
      that very GETACK, on top of `base`. */
  function Acks(es: seq<Event>, base: nat): seq<nat> {
    if es == [] then []
    else if es[0].Skipped? then Acks(es[1..], base)
    else
      var now := base + |es[0].raw|;
      (if IsGetAck(FromValue(es[0].value)) then [now] else []) + Acks(es[1..], now)
  }

  /** The commands that reach `execute`: every decodable frame but REPLCONF. */
  function Executed(es: seq<Event>): seq<Command> {
    if es == [] then []
    else (if es[0].Took? && FromValue(es[0].value).Ok? && !FromValue(es[0].value).cmd.ReplConf?
          then [FromValue(es[0].value).cmd] else []) + Executed(es[1..])
  }

  lemma {:induction false} RawLength(es: seq<Event>)
    ensures |RawAll(es)| == TookBytes(es) + SkipCount(es)
  {
    if es != [] {
      RawLength(es[1..]);
    }
  }

  /** What the replica loop keeps besides its buffer. */
  datatype Progress = Progress(processed: nat, acks: seq<nat>, executed: seq<Command>)

  function Counted(p: Progress, v: Value, n: nat): Progress {
    var now := p.processed + n;
    match FromValue(v)
    case Err(_) => p.(processed := now)
    case Ok(cmd) =>
      if !cmd.ReplConf? then p.(processed := now, executed := p.executed + [cmd])
      else if IsGetAck(Decoded.Ok(cmd)) then p.(processed := now, acks := p.acks + [now])
      else p.(processed := now)
  }

  function Perform(p: Progress, es: seq<Event>): Progress
    decreases |es|
  {
    if es == [] then p
    else Perform(if es[0].Took? then Counted(p, es[0].value, |es[0].raw|) else p, es[1..])
  }

  lemma {:induction false} PerformAppend(p: Progress, a: seq<Event>, b: seq<Event>)
    ensures Perform(p, a + b) == Perform(Perform(p, a), b)
    decreases |a|
  {
    hide Counted;
    if a == [] {
      assert a + b == b;
    } else {
      assert (a + b)[1..] == a[1..] + b;
      PerformAppend(if a[0].Took? then Counted(p, a[0].value, |a[0].raw|) else p, a[1..], b);
    }
  }

  /** The offset counts every taken frame once, every GETACK is answered with
      an offset that includes its own bytes, and every other decodable frame is
      executed once, in order. */
  lemma {:induction false} PerformMeans(p: Progress, es: seq<Event>)
    ensures var q := Perform(p, es);
            && q.processed == p.processed + TookBytes(es)
            && q.acks == p.acks + Acks(es, p.processed)
            && q.executed == p.executed + Executed(es)
    decreases |es|
  {
    hide FromValue, Counted, IsGetAck;
    if es != [] {
      if es[0].Took? {
        CountedMeans(p, es[0].value, |es[0].raw|);
        PerformMeans(Counted(p, es[0].value, |es[0].raw|), es[1..]);
      } else {
        PerformMeans(p, es[1..]);
      }
    }
  }

  lemma CountedMeans(p: Progress, v: Value, n: nat)
    ensures var q, d := Counted(p, v, n), FromValue(v);
            && q.processed == p.processed + n
            && q.acks == p.acks + (if IsGetAck(d) then [p.processed + n] else [])
            && q.executed == p.executed + (if d.Ok? && !d.cmd.ReplConf? then [d.cmd] else [])
  {
    hide FromValue;
  }

  /** The streaming part of `run_replica_loop`. */
  class ReplicaStream {
    const buffer: BytesMut
    var processed: nat
    var acks: seq<nat>
    var executed: seq<Command>

    constructor (b: BytesMut)
      ensures buffer == b && State() == Progress(0, [], [])
    {
      buffer := b;
      processed := 0;
      acks := [];
      executed := [];
    }

    function State(): Progress
      reads this
    {
      Progress(processed, acks, executed)
    }

    /** One frame taken from the buffer. */
    method Dispatch(v: Value, consumed: nat)
      modifies this
      ensures State() == Counted(old(State()), v, consumed)
    {
      hide FromValue;
      match FromValue(v) {
        case Err(_) =>
        case Ok(cmd) =>
          if cmd.ReplConf? {
            if cmd.args != [] && Upper(cmd.args[0]) == "GETACK" {
              processed := processed + consumed;
              acks := acks + [processed];
              return;
            }
          } else {
            executed := executed + [cmd];
          }
      }
      processed := processed + consumed;
    }

    /** The inner loop: take frames until the buffer is empty or needs more, or
        drop one byte of a frame that does not parse. */
    method DrainBuffer()
      modifies this, buffer
      ensures buffer.data == Drain(old(buffer.data)).left
      ensures State() == Perform(old(State()), Drain(old(buffer.data)).events)
    {
      hide Parse, Counted;
      while buffer.data != []
        invariant Drain(buffer.data).left == Drain(old(buffer.data)).left
        invariant Perform(State(), Drain(buffer.data).events)
               == Perform(old(State()), Drain(old(buffer.data)).events)
        decreases |buffer.data|
      {
        ghost var events := Drain(buffer.data).events;
        var initialLen := |buffer.data|;
        var cursor := buffer.Clone();
        var r := Read(cursor);
        match r
        case Ok(None) => return;
        case Err(_) =>
          buffer.Advance(1);
          return;
        case Ok(Some(v)) =>
          var consumed := initialLen - |cursor.data|;
          buffer.Advance(consumed);
          Dispatch(v, consumed);
          assert events[1..] == Drain(buffer.data).events;
      }
    }

    /** The outer loop over the reads that arrive until the stream closes. */
    method Follow(chunks: seq<bytes>)
      modifies this, buffer
      ensures var f := Feed(old(buffer.data), chunks);
              && buffer.data == f.left
              && State() == Perform(old(State()), f.events)
    {
      hide Drain, Perform;
      ghost var start := buffer.data;
      ghost var done := Drain(start).events;
      DrainBuffer();
      var i := 0;
      while i < |chunks|
        invariant 0 <= i <= |chunks|
        invariant State() == Perform(old(State()), done)
        invariant Feed(start, chunks) == Resume(done, buffer.data, chunks[i..])
      {
        ghost var d := Drain(buffer.data + chunks[i]);
        assert chunks[i..][0] == chunks[i] && chunks[i..][1..] == chunks[i + 1..];
        buffer.Extend(chunks[i]);
        DrainBuffer();
        PerformAppend(old(State()), done, d.events);
        done := done + d.events;
        i := i + 1;
      }
    }
  }

  /** The rest of the outer loop, after a pass and before the next read. */
  ghost function Resume(done: seq<Event>, left: bytes, chunks: seq<bytes>): Drained {
    if chunks == [] then Drained(done, left) else
    var f := Feed(left + chunks[0], chunks[1..]);
    Drained(done + f.events, f.left)
  }

  /** End to end: whatever the cuts, the offset reported by the replica is the
      number of bytes received less those dropped and those still buffered, and
      what it executed is the start of what the uncut stream asks for. */
  lemma FollowMeans(buf: bytes, chunks: seq<bytes>)
    ensures var f, stream := Feed(buf, chunks), buf + Concat(chunks);
            var q := Perform(Progress(0, [], []), f.events);
            && q.processed + SkipCount(f.events) + |f.left| == |stream|
            && q.executed <= Executed(Run(stream))
            && q.acks <= Acks(Run(stream), 0)
  {
    hide Feed, Run, FromValue;
    var f := Feed(buf, chunks);
    FeedFollowsRun(buf, chunks);
    FeedConserves(buf, chunks);
    RawLength(f.events);
    var zero, whole := Progress(0, [], []), Run(buf + Concat(chunks));
    PerformAppend(zero, f.events, Run(f.left));
    PerformMeans(zero, f.events);
    PerformMeans(zero, whole);
    PerformMeans(Perform(zero, f.events), Run(f.left));
    assert zero.executed + Executed(whole) == Executed(whole);
    assert zero.acks + Acks(whole, 0) == Acks(whole, 0);
  }

  /** The reading half of `Connection::handle`. */
  class Connection {
    const buffer: BytesMut
    var handed: seq<Handed>
    var closed: bool

    constructor ()
      ensures fresh(buffer) && buffer.data == [] && handed == [] && !closed
    {
      buffer := new BytesMut([]);
      handed := [];
      closed := false;
    }

    /** One read: the size check, then every complete frame in the buffer. */
    method OnRead(chunk: bytes, max: nat)
      requires !closed
      modifies this, buffer
      ensures var now := old(buffer.data) + chunk;
              if |now| > max then closed && buffer.data == now && handed == old(handed)
              else && buffer.data == Serve(now).left
                   && handed == old(handed) + Serve(now).frames
                   && closed == (Serve(now).end == QuitSeen)
    {
      hide Parse, IsQuit;
      buffer.Extend(chunk);
      ghost var now := buffer.data;
      if |buffer.data| > max {
        closed := true;
        return;
      }
      while buffer.data != []
        invariant !closed
        invariant Serve(buffer.data).end == Serve(now).end && Serve(buffer.data).left == Serve(now).left
        invariant old(handed) + Serve(now).frames == handed + Serve(buffer.data).frames
        decreases |buffer.data|
      {
        ghost var before := buffer.data;
        var initialLen := |buffer.data|;
        var cursor := buffer.Clone();
        var r := Read(cursor);
        match r
        case Ok(None) => return;
        case Err(_) =>
          buffer.Advance(|buffer.data|);
          return;
        case Ok(Some(v)) =>
          var raw := buffer.SplitTo(initialLen - |cursor.data|);
          handed := handed + [Handed(v, raw)];
          if IsQuit(v) {
            closed := true;
            return;
          }
          assert Serve(before).frames == [Handed(v, raw)] + Serve(buffer.data).frames;
      }
    }

    /** The connection over the reads that arrive until the client is gone. */
    method Handle(chunks: seq<bytes>, max: nat)
      requires !closed
      modifies this, buffer
      ensures var sn := Session(old(buffer.data), chunks, max);
              && handed == old(handed) + sn.frames && buffer.data == sn.left
              && closed == (sn.end == QuitSeen || sn.end == TooLarge)
    {
      hide Serve;
      ghost var sn := Session(buffer.data, chunks, max);
      var i := 0;
      while i < |chunks| && !closed
        invariant 0 <= i <= |chunks|
        invariant old(handed) + sn.frames
               == handed + (if closed then [] else Session(buffer.data, chunks[i..], max).frames)
        invariant if closed then sn.left == buffer.data && (sn.end == QuitSeen || sn.end == TooLarge)
                  else && sn.left == Session(buffer.data, chunks[i..], max).left
                       && sn.end == Session(buffer.data, chunks[i..], max).end
      {
        assert chunks[i..][0] == chunks[i] && chunks[i..][1..] == chunks[i + 1..];
        OnRead(chunks[i], max);
        i := i + 1;
      }
    }
  }
}
