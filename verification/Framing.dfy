/** The two loops that cut a byte stream into frames: what they do to a
    buffer and a list of reads, and why the cuts between reads do not matter. */
module Framing {
  import opened Bytes
  import opened Resp
  import opened RespLocality
  import opened Commands

  function Concat(chunks: seq<bytes>): bytes {
    if chunks == [] then [] else chunks[0] + Concat(chunks[1..])
  }

  // ======================================================= replica stream

  /** One step of the replica loop: a frame taken, or one corrupt byte dropped. */
  datatype Event = Took(value: Value, raw: bytes) | Skipped(b: byte)

  function RawOf(e: Event): bytes {
    if e.Took? then e.raw else [e.b]
  }

  function RawAll(es: seq<Event>): bytes {
    if es == [] then [] else RawOf(es[0]) + RawAll(es[1..])
  }

  predicate EndsOnSkip(es: seq<Event>) {
    es != [] && es[|es| - 1].Skipped?
  }

  /** The reference run over a whole stream, with no reads in sight. */
  function Run(s: bytes): seq<Event>
    decreases |s|
  {
    match Parse(s)
    case NeedMore => []
    case Frame(v, n) => [Took(v, s[..n])] + Run(s[n..])
    case Failed(_, _) => [Skipped(s[0])] + Run(s[1..])
  }

  datatype Drained = Drained(events: seq<Event>, left: bytes)

  /** One pass of the inner loop: frames until the buffer needs more, or up to
      and including the first dropped byte. */
  function Drain(buf: bytes): Drained
    decreases |buf|
  {
    match Parse(buf)
    case NeedMore => Drained([], buf)
    case Failed(_, _) => Drained([Skipped(buf[0])], buf[1..])
    case Frame(v, n) =>
      var d := Drain(buf[n..]);
      Drained([Took(v, buf[..n])] + d.events, d.left)
  }

  /** The outer loop: a pass, then a read, for every read. */
  function Feed(buf: bytes, chunks: seq<bytes>): Drained
    decreases |chunks|
  {
    var d := Drain(buf);
    if chunks == [] then d else
    var f := Feed(d.left + chunks[0], chunks[1..]);
    Drained(d.events + f.events, f.left)
  }

  /** A pass performs the next steps of the reference run, whatever arrives later. */
  lemma {:induction false} DrainFollowsRun(buf: bytes, t: bytes)
    ensures Run(buf + t) == Drain(buf).events + Run(Drain(buf).left + t)
    decreases |buf|
  {
    hide Parse;
    if Parse(buf) != NeedMore {
      ParseExtends(buf, t);
      var n := if Parse(buf).Frame? then Parse(buf).consumed else 1;
      assert (buf + t)[..n] == buf[..n] && (buf + t)[n..] == buf[n..] + t;
      if Parse(buf).Frame? {
        DrainFollowsRun(buf[n..], t);
      }
    }
  }

  /** A pass leaves the buffer waiting, or ends on a dropped byte. */
  lemma {:induction false} DrainLeaves(buf: bytes)
    ensures Parse(Drain(buf).left) == NeedMore || EndsOnSkip(Drain(buf).events)
    decreases |buf|
  {
    hide Parse;
    if Parse(buf).Frame? {
      DrainLeaves(buf[Parse(buf).consumed..]);
    }
  }

  lemma {:induction false} DrainConserves(buf: bytes)
    ensures buf == RawAll(Drain(buf).events) + Drain(buf).left
    decreases |buf|
  {
    hide Parse, RawAll;
    match Parse(buf)
    case NeedMore =>
      assert RawAll([]) + buf == buf by { RawNothing(); }
    case Failed(_, _) =>
      RawOne(Skipped(buf[0]), []);
      RawNothing();
      assert [Skipped(buf[0])] + [] == [Skipped(buf[0])];
    case Frame(v, n) =>
      var d := Drain(buf[n..]);
      DrainConserves(buf[n..]);
      RawOne(Took(v, buf[..n]), d.events);
      Rejoin(buf, n, RawAll(d.events), d.left);
  }

  lemma RawNothing()
    ensures RawAll([]) == []
  {
  }

  lemma RawOne(e: Event, es: seq<Event>)
    ensures RawAll([e] + es) == RawOf(e) + RawAll(es)
  {
    assert ([e] + es)[1..] == es;
  }

  lemma {:induction false} RawAllAppend(a: seq<Event>, b: seq<Event>)
    ensures RawAll(a + b) == RawAll(a) + RawAll(b)
  {
    if a == [] {
      assert a + b == b;
    } else {
      assert (a + b)[1..] == a[1..] + b;
      RawAllAppend(a[1..], b);
    }
  }

  /** Chunk independence, even across corrupt bytes: for every way of cutting
      the stream, the steps taken are the first steps of the one reference run,
      and the run goes on from exactly the bytes left in the buffer. */
  lemma {:induction false} FeedFollowsRun(buf: bytes, chunks: seq<bytes>)
    ensures Run(buf + Concat(chunks)) == Feed(buf, chunks).events + Run(Feed(buf, chunks).left)
    decreases |chunks|
  {
    hide Run, Drain;
    var d := Drain(buf);
    if chunks == [] {
      DrainFollowsRun(buf, []);
      assert buf + [] == buf && d.left + [] == d.left;
    } else {
      DrainFollowsRun(buf, Concat(chunks));
      var rest := d.left + chunks[0];
      assert rest + Concat(chunks[1..]) == d.left + Concat(chunks);
      FeedFollowsRun(rest, chunks[1..]);
    }
  }

  lemma Regroup(a: bytes, b: bytes, c: bytes, d: bytes, x: bytes, y: bytes)
    requires b + c + d == x + y
    ensures (a + b) + (c + d) == (a + x) + y
  {
    assert (a + b) + (c + d) == a + (b + c + d);
  }

  /** Conservation: every byte received was taken in a frame, dropped, or is
      still buffered, in order. */
  lemma {:induction false} FeedConserves(buf: bytes, chunks: seq<bytes>)
    ensures buf + Concat(chunks) == RawAll(Feed(buf, chunks).events) + Feed(buf, chunks).left
    decreases |chunks|
  {
    hide Drain;
    var d := Drain(buf);
    DrainConserves(buf);
    if chunks != [] {
      var rest := d.left + chunks[0];
      FeedConserves(rest, chunks[1..]);
      RawAllAppend(d.events, Feed(rest, chunks[1..]).events);
      Regroup(RawAll(d.events), d.left, chunks[0], Concat(chunks[1..]),
              RawAll(Feed(rest, chunks[1..]).events), Feed(rest, chunks[1..]).left);
    } else {
      assert buf + [] == buf;
    }
  }

  /** On a stream without corrupt bytes the loop is never behind: it has taken
      every frame that has fully arrived. */
  lemma FeedCatchesUp(buf: bytes, chunks: seq<bytes>)
    requires forall e <- Run(buf + Concat(chunks)) :: e.Took?
    ensures Feed(buf, chunks).events == Run(buf + Concat(chunks))
  {
    hide Parse, Drain, Feed;
    FeedFollowsRun(buf, chunks);
    FeedEndsDrained(buf, chunks);
    var f := Feed(buf, chunks);
    if f.events != [] {
      assert f.events[|f.events| - 1] in f.events + Run(f.left);
    }
    assert Run(f.left) == [];
  }

  lemma {:induction false} FeedEndsDrained(buf: bytes, chunks: seq<bytes>)
    ensures var f := Feed(buf, chunks);
            Parse(f.left) == NeedMore || EndsOnSkip(f.events)
    decreases |chunks|
  {
    hide Parse, Drain;
    DrainLeaves(buf);
    if chunks != [] {
      FeedEndsDrained(Drain(buf).left + chunks[0], chunks[1..]);
    }
  }

  // ------------------------------------------------- behind after a fault

  function SkipCount(es: seq<Event>): nat {
    if es == [] then 0 else (if es[0].Skipped? then 1 else 0) + SkipCount(es[1..])
  }

  lemma {:induction false} SkipsAppend(a: seq<Event>, b: seq<Event>)
    ensures SkipCount(a + b) == SkipCount(a) + SkipCount(b)
  {
    if a == [] {
      assert a + b == b;
    } else {
      assert (a + b)[1..] == a[1..] + b;
      SkipsAppend(a[1..], b);
    }
  }

  lemma {:induction false} EndsOnSkipCounts(es: seq<Event>)
    ensures EndsOnSkip(es) ==> SkipCount(es) > 0
  {
    if es != [] {
      EndsOnSkipCounts(es[1..]);
    }
  }

  /** More bytes in the buffer do not change where a pass drops a byte. */
  lemma {:induction false} DrainExtends(buf: bytes, t: bytes)
    ensures var d := Drain(buf);
            if EndsOnSkip(d.events) then Drain(buf + t) == Drained(d.events, d.left + t)
            else Run(buf) == d.events && d.events <= Drain(buf + t).events
    decreases |buf|
  {
    hide Parse;
    if Parse(buf) != NeedMore {
      ParseExtends(buf, t);
      var n := if Parse(buf).Frame? then Parse(buf).consumed else 1;
      assert (buf + t)[..n] == buf[..n] && (buf + t)[n..] == buf[n..] + t;
      if Parse(buf).Frame? {
        DrainExtends(buf[n..], t);
      }
    }
  }

  /** A pass drops a byte exactly when it ends on it. */
  lemma {:induction false} DrainSkips(buf: bytes)
    ensures SkipCount(Drain(buf).events) == if EndsOnSkip(Drain(buf).events) then 1 else 0
    decreases |buf|
  {
    hide Parse;
    if Parse(buf).Frame? {
      DrainSkips(buf[Parse(buf).consumed..]);
    }
  }

  /** One dropped byte for each pass at most, and then the last pass ends on one. */
  lemma {:induction false} FeedSkips(buf: bytes, chunks: seq<bytes>)
    ensures SkipCount(Feed(buf, chunks).events) <= |chunks| + 1
    ensures SkipCount(Feed(buf, chunks).events) == |chunks| + 1 ==> EndsOnSkip(Feed(buf, chunks).events)
    decreases |chunks|
  {
    hide Drain, SkipCount;
    DrainSkips(buf);
    if chunks != [] {
      var next := Drain(buf).left + chunks[0];
      FeedSkips(next, chunks[1..]);
      SkipsAppend(Drain(buf).events, Feed(next, chunks[1..]).events);
    }
  }

  /** Passes enough for every byte that has to be dropped; the last may be spent
      on the end of the run. */
  predicate EnoughReads(run: seq<Event>, more: nat) {
    SkipCount(run) <= more + if EndsOnSkip(run) then 1 else 0
  }

  lemma {:induction false} CatchesUpAfter(buf: bytes, t: bytes, chunks: seq<bytes>)
    requires EnoughReads(Run(buf), |chunks|)
    ensures Run(buf) <= Feed(buf + t, chunks).events
    decreases |chunks|
  {
    hide Parse, Run, Drain, SkipCount;
    var d := Drain(buf);
    DrainExtends(buf, t);
    if EndsOnSkip(d.events) {
      var rest := Run(d.left);
      DrainFollowsRun(buf, []);
      assert buf + [] == buf && d.left + [] == d.left;
      DrainSkips(buf);
      SkipsAppend(d.events, rest);
      if rest != [] {
        EndsOnSkipCounts(rest);
        assert EndsOnSkip(Run(buf)) == EndsOnSkip(rest);
        CatchesUpAfter(d.left, t + chunks[0], chunks[1..]);
        assert d.left + t + chunks[0] == d.left + (t + chunks[0]);
      }
    }
  }

  /** Every pass that drops a byte waits for the next read before it goes on. What
      a buffer asks for is all done after some further reads, whatever they bring,
      if and only if they are as many as bytes have to be dropped in it, less one
      when nothing follows the last of these. */
  lemma CatchesUpExactly(buf: bytes, t: bytes, chunks: seq<bytes>)
    ensures Run(buf) <= Feed(buf + t, chunks).events
       <==> SkipCount(Run(buf)) <= |chunks| + if EndsOnSkip(Run(buf)) then 1 else 0
  {
    hide Parse, Run, Drain, SkipCount, Feed;
    var run, all := Run(buf), Feed(buf + t, chunks).events;
    if EnoughReads(run, |chunks|) {
      CatchesUpAfter(buf, t, chunks);
    }
    if run <= all {
      var rest := all[|run|..];
      assert all == run + rest;
      SkipsAppend(run, rest);
      FeedSkips(buf + t, chunks);
      EndsOnSkipCounts(rest);
      assert rest != [] ==> EndsOnSkip(all) == EndsOnSkip(rest);
      assert rest == [] ==> run == all;
    }
  }

  /** One stray byte in front of a complete frame, and the frame waits for a read
      that may never come. */
  lemma FrameWaits(b: byte, raw: bytes)
    requires b !in "+-:$*" && Parse(raw).Frame? && Parse(raw).consumed == |raw|
    ensures Feed([], [[b] + raw]) == Drained([Skipped(b)], raw)
    ensures Run([b] + raw) == [Skipped(b), Took(Parse(raw).value, raw)]
  {
    hide Parse;
    EmptyNeedsMore();
    var s, none: bytes := [b] + raw, [];
    assert none + s == s && s[1..] == raw && raw[..|raw|] == raw && raw[|raw|..] == none;
    StrayByte(s);
    assert Run(raw) == [Took(Parse(raw).value, raw)];
    var chunks: seq<bytes> := [s];
    assert chunks[1..] == [];
    assert Drain(none) == Drained([], none);
  }

  lemma StrayByte(s: bytes)
    requires s != [] && s[0] !in "+-:$*"
    ensures Parse(s).Failed?
  {
    hide ParseArray, ParseBulk, ParseText, ParseInteger;
  }

  // ==================================================== client connection

  /** A frame handed to `Command::from_value`, with the bytes it came from. */
  datatype Handed = Handed(value: Value, raw: bytes)

  datatype End = Waiting | Fault | QuitSeen | TooLarge

  datatype Served = Served(frames: seq<Handed>, left: bytes, end: End)

  predicate IsQuit(v: Value) {
    FromValue(v) == Ok(Quit)
  }

  /** The processing loop over one buffer: frames up to QUIT, up to a protocol
      error (which empties the buffer), or until more bytes are needed. */
  function Serve(buf: bytes): (r: Served)
    ensures r.end != TooLarge
    decreases |buf|
  {
    match Parse(buf)
    case NeedMore => Served([], buf, Waiting)
    case Failed(_, _) => Served([], [], Fault)
    case Frame(v, n) =>
      if IsQuit(v) then Served([Handed(v, buf[..n])], buf[n..], QuitSeen)
      else Serve(buf[n..]).(frames := [Handed(v, buf[..n])] + Serve(buf[n..]).frames)
  }

  /** The whole connection: read, check the size limit, process, repeat until
      QUIT, an oversized buffer or the end of the stream. */
  function Session(buf: bytes, chunks: seq<bytes>, max: nat): Served
    decreases |chunks|
  {
    if chunks == [] then Served([], buf, Waiting)
    else if |buf + chunks[0]| > max then Served([], buf + chunks[0], TooLarge)
    else
      var sv := Serve(buf + chunks[0]);
      if sv.end == QuitSeen then sv else
      var rest := Session(sv.left, chunks[1..], max);
      rest.(frames := sv.frames + rest.frames)
  }

  function RawHanded(hs: seq<Handed>): bytes {
    if hs == [] then [] else hs[0].raw + RawHanded(hs[1..])
  }

  /** The raw slices handed over are the consumed prefix of the buffer. */
  lemma {:induction false} ServeConserves(buf: bytes)
    ensures var r := Serve(buf);
            if r.end == Fault then r.left == [] && RawHanded(r.frames) <= buf
            else buf == RawHanded(r.frames) + r.left
    decreases |buf|
  {
    hide Parse, IsQuit, RawHanded;
    RawNone();
    if Parse(buf).Frame? {
      var n, v := Parse(buf).consumed, Parse(buf).value;
      var tail := if IsQuit(v) then Served([], buf[n..], QuitSeen) else Serve(buf[n..]);
      RawCons(Handed(v, buf[..n]), tail.frames);
      if IsQuit(v) {
        assert [Handed(v, buf[..n])] + [] == [Handed(v, buf[..n])] && [] + buf[n..] == buf[n..];
      } else {
        ServeConserves(buf[n..]);
      }
      Rejoin(buf, n, RawHanded(tail.frames), tail.left);
    }
  }

  lemma RawNone()
    ensures RawHanded([]) == []
  {
  }

  lemma RawCons(h: Handed, hs: seq<Handed>)
    ensures RawHanded([h] + hs) == h.raw + RawHanded(hs)
  {
    assert ([h] + hs)[1..] == hs;
  }

  lemma Rejoin(buf: bytes, n: nat, a: bytes, b: bytes)
    requires n <= |buf|
    ensures buf[n..] == a + b ==> buf == (buf[..n] + a) + b
    ensures a <= buf[n..] ==> buf[..n] + a <= buf
  {
    assert buf == buf[..n] + buf[n..];
  }

  /** A connection that waits, waits for the bytes it has kept. */
  lemma {:induction false} WaitingNeedsMore(buf: bytes)
    ensures Serve(buf).end == Waiting ==> Parse(Serve(buf).left) == NeedMore
    decreases |buf|
  {
    hide Parse, IsQuit;
    if Parse(buf).Frame? {
      WaitingNeedsMore(buf[Parse(buf).consumed..]);
    }
  }

  /** Each raw slice is by itself a complete encoding of the value handed over. */
  lemma {:induction false} HandedAreFrames(buf: bytes)
    ensures forall h <- Serve(buf).frames :: Parse(h.raw) == Frame(h.value, |h.raw|)
    decreases |buf|
  {
    hide Parse, IsQuit;
    if Parse(buf).Frame? {
      ParseTruncates(buf, Parse(buf).consumed);
      HandedAreFrames(buf[Parse(buf).consumed..]);
    }
  }

  /** More bytes behind a buffer only continue what its processing started. */
  lemma {:induction false} ServeExtends(buf: bytes, t: bytes)
    ensures var a, b := Serve(buf), Serve(buf + t);
            if a.end == Waiting
            then b == Serve(a.left + t).(frames := a.frames + Serve(a.left + t).frames)
            else b.frames == a.frames && b.end == a.end
    decreases |buf|
  {
    hide Parse, IsQuit;
    if Parse(buf) != NeedMore {
      ParseExtends(buf, t);
      if Parse(buf).Frame? {
        var n := Parse(buf).consumed;
        assert (buf + t)[..n] == buf[..n] && (buf + t)[n..] == buf[n..] + t;
        ServeExtends(buf[n..], t);
      }
    }
  }

  /** Connection chunk independence. For every way of cutting a stream that
      stays within the payload limit, the connection hands over the frames of
      the uncut stream, up to its first protocol error or QUIT. */
  lemma {:induction false} SessionIgnoresCuts(buf: bytes, chunks: seq<bytes>, max: nat)
    requires Parse(buf) == NeedMore
    requires Session(buf, chunks, max).end != TooLarge
    ensures var whole := Serve(buf + Concat(chunks));
            && whole.frames <= Session(buf, chunks, max).frames
            && (whole.end != Fault ==> Session(buf, chunks, max).frames == whole.frames)
    decreases |chunks|
  {
    hide Parse, IsQuit;
    if chunks == [] {
      assert buf + [] == buf;
    } else {
      var now, later := buf + chunks[0], Concat(chunks[1..]);
      assert buf + Concat(chunks) == now + later;
      ServeExtends(now, later);
      WaitingNeedsMore(now);
      if Serve(now).end == Waiting {
        SessionIgnoresCuts(Serve(now).left, chunks[1..], max);
      }
    }
  }

  /** A stream of at most `max` bytes never trips the limit. */
  lemma {:induction false} ShortStreamFits(buf: bytes, chunks: seq<bytes>, max: nat)
    requires |buf + Concat(chunks)| <= max
    ensures Session(buf, chunks, max).end != TooLarge
    decreases |chunks|
  {
    hide Serve, Parse;
    if chunks != [] {
      var now := buf + chunks[0];
      ServeConserves(now);
      assert |Serve(now).left| <= |now|;
      ShortStreamFits(Serve(buf + chunks[0]).left, chunks[1..], max);
    }
  }
}
