/** What replication guarantees, in every state of every run. */
module Convergence {
  import opened Bytes
  import opened Resp
  import opened RespLocality
  import opened Commands
  import opened Store
  import opened WriteLog
  import opened Replication

  /** Nothing sent to the replica is still on its way or unparsed. */
  predicate Drained(r: Replica) {
    r.buffer == [] && r.wire == []
  }

  lemma RestNotEmpty(s: System, n: nat)
    requires n < |s.log| && forall e <- s.log :: GoodEntry(e, s.now)
    ensures RawLog(s.log[n..]) != []
  {
    hide Parse, FromValue;
    assert s.log[n] in s.log && s.log[n..][0] == s.log[n];
  }

  /** A drained replica has applied the whole log since its registration, and
      its reported offset plus the bytes before it make up the master's offset. */
  lemma DrainedAppliedAll(s: System, r: Replica)
    requires Inv(s) && r in s.replicas && Drained(r)
    ensures r.since + |r.times| == |s.log|
    ensures s.offset == |RawLog(s.log[..r.since])| + r.processed
  {
    hide Parse, FromValue, Replay, Trimmed;
    var n := r.since + |r.times|;
    if n < |s.log| {
      RestNotEmpty(s, n);
      assert false;
    }
    RawLogAppend(s.log[..r.since], s.log[r.since..]);
    assert s.log[..r.since] + s.log[r.since..] == s.log;
    assert s.log[r.since..n] == s.log[r.since..];
  }

  /** At any moment: what the replica has counted, buffered and not yet received
      are the bytes propagated since its registration. */
  lemma OffsetsConserve(t0: nat, run: seq<Action>, s: System, r: Replica)
    requires Reaches(t0, run, s) && r in s.replicas
    ensures r.since <= |s.log|
    ensures s.offset == |RawLog(s.log[..r.since])| + r.processed + |r.buffer| + |r.wire|
  {
    hide Reaches, RawLog, GoodEntry, TimesInOrder, HoldsReplay, MasterSince;
    RunKeeps(t0, run, s);
    assert GoodReplica(r, s);
    var n := r.since + |r.times|;
    RawLogAppend(s.log[..r.since], s.log[r.since..n]);
    RawLogAppend(s.log[..n], s.log[n..]);
    assert s.log[..r.since] + s.log[r.since..n] == s.log[..n];
    assert s.log[..n] + s.log[n..] == s.log;
  }

  /** The two ideal stores behind a drained pair: the master's since the
      registration, and the replica's. */
  lemma Ideals(s: System, r: Replica)
    requires Inv(s) && r in s.replicas && Drained(r)
    ensures |r.times| == |s.log[r.since..]| && r.since <= |s.log|
    ensures Trimmed(r.store, Replay(map[], s.log[r.since..], r.times) - r.shed, s.now)
    ensures Trimmed(s.master, Replay(r.lost, s.log[r.since..], Ats(s.log[r.since..])) - r.gone, s.now)
    ensures forall j :: 0 <= j < |r.times| ==> Ats(s.log[r.since..])[j] <= r.times[j] <= s.now
  {
    hide Parse, FromValue, Replay, Trimmed, RawLog;
    DrainedAppliedAll(s, r);
    assert s.log[r.since..r.since + |r.times|] == s.log[r.since..];
  }

  /** Key k behind a drained pair: written since the registration, it has the
      same value on both sides, and the replica's expiry is the later one. */
  lemma WrittenKey(s: System, r: Replica, k: bytes, lag: nat)
    requires Inv(s) && r in s.replicas && Drained(r)
    requires r.since + |r.times| <= |s.log|
    requires forall j :: 0 <= j < |r.times| ==> r.times[j] <= s.log[r.since + j].at + lag
    requires |r.times| == |s.log[r.since..]|
    ensures var m, q := Replay(r.lost, s.log[r.since..], Ats(s.log[r.since..])),
                        Replay(map[], s.log[r.since..], r.times);
            && (k in q ==> Wrote(s.log[r.since..], k))
            && (Wrote(s.log[r.since..], k) ==> (k in m <==> k in q))
            && (Wrote(s.log[r.since..], k) && k in m ==> Lagging(m[k], q[k], lag))
  {
    hide Parse, FromValue, Replay, Trimmed, RawLog, Lagging;
    var log, ats := s.log[r.since..], Ats(s.log[r.since..]);
    Ideals(s, r);
    ReplayKeys(map[], log, r.times, k);
    ReplayLags(log, ats, r.times, lag);
    if Wrote(log, k) {
      var e :| e in log && Writes(e.cmd, k);
      assert Touches(e.cmd, k);
      ReplayForgets(r.lost, map[], log, ats, k);
    }
  }

  /** Every application happened within some bound. */
  lemma {:induction false} SomeLag(log: seq<Logged>, since: nat, times: seq<nat>) returns (lag: nat)
    requires since + |times| <= |log|
    ensures forall j :: 0 <= j < |times| ==> times[j] <= log[since + j].at + lag
    decreases |times|
  {
    lag := 0;
    if times != [] {
      var n := |times| - 1;
      lag := SomeLag(log, since, times[..n]);
      if times[n] > lag {
        lag := times[n];
      }
    }
  }

  /** Timed replication, exactly. In every reachable state with a drained
      replica, a key live at the master is live at the replica with the same
      value if and only if it was written since the replica registered and the
      replica has not evicted it since. Nothing the master evicts matters here. */
  lemma LiveKeysReplicate(t0: nat, run: seq<Action>, s: System, r: Replica, k: bytes)
    requires Reaches(t0, run, s) && r in s.replicas && Drained(r)
    requires k in LiveView(s.master, s.now)
    ensures r.since <= |s.log|
    ensures (k in LiveView(r.store, s.now) && r.store[k].value == s.master[k].value)
       <==> Wrote(s.log[r.since..], k) && k !in r.shed
    ensures r.lost == map[] && r.shed == {} ==>
              k in LiveView(r.store, s.now) && r.store[k].value == s.master[k].value
  {
    hide Reaches, Parse, FromValue, Replay, RawLog, GoodReplica, GoodEntry;
    RunKeeps(t0, run, s);
    Ideals(s, r);
    var lag := SomeLag(s.log, r.since, r.times);
    WrittenKey(s, r, k, lag);
    ReplayKeys(r.lost, s.log[r.since..], Ats(s.log[r.since..]), k);
  }

  /** The other direction. A key live at a drained replica is live at the master
      with the same value, or the master has evicted it, or it is about to go: its
      deadline is at most the replica's largest lag away. */
  lemma ReplicaKeysAreFresh(t0: nat, run: seq<Action>, s: System, r: Replica, k: bytes, lag: nat)
    requires Reaches(t0, run, s) && r in s.replicas && Drained(r)
    requires r.since + |r.times| <= |s.log|
    requires forall j :: 0 <= j < |r.times| ==> r.times[j] <= s.log[r.since + j].at + lag
    requires k in LiveView(r.store, s.now)
    ensures || (k in LiveView(s.master, s.now) && s.master[k].value == r.store[k].value)
            || k in r.gone
            || (r.store[k].expires.Some? && r.store[k].expires.value <= s.now + lag)
  {
    hide Reaches, Parse, FromValue, Replay, RawLog, GoodReplica, GoodEntry;
    RunKeeps(t0, run, s);
    Ideals(s, r);
    WrittenKey(s, r, k, lag);
  }

  /** A SET executed at a moment still shows at a later one. */
  predicate Shows(c: Command, at: nat, now: nat) {
    c.Set? && (c.px.None? || now < at + c.px.value)
  }

  /** Both sides of a drained pair at a key touched since the registration: the
      last write decides, each side counting from when it executed it, unless that
      side has evicted the key since. */
  lemma LastWriteDecides(t0: nat, run: seq<Action>, s: System, r: Replica, k: bytes, i: nat)
    requires Reaches(t0, run, s) && r in s.replicas && Drained(r)
    requires r.since <= |s.log| && i == LastTouch(s.log[r.since..], k)
    ensures var e := s.log[r.since + i];
            && i < |r.times| && e.at <= r.times[i] <= s.now
            && (k in LiveView(s.master, s.now) <==> Shows(e.cmd, e.at, s.now) && k !in r.gone)
            && (k in LiveView(r.store, s.now) <==> Shows(e.cmd, r.times[i], s.now) && k !in r.shed)
            && (k in LiveView(s.master, s.now) ==> s.master[k].value == e.cmd.value)
            && (k in LiveView(r.store, s.now) ==> r.store[k].value == e.cmd.value)
  {
    hide Reaches, Parse, FromValue, Replay, RawLog, GoodReplica, GoodEntry, LastTouch;
    RunKeeps(t0, run, s);
    Ideals(s, r);
    var log := s.log[r.since..];
    ReplayLast(map[], log, r.times, k, i);
    ReplayLast(r.lost, log, Ats(log), k, i);
    assert log[i] == s.log[r.since + i] && Ats(log)[i] == log[i].at;
  }

  /** Staleness, exactly. A key live at a drained replica is live at the master,
      with the same value, if and only if the master has not evicted it and the
      last write of that key has no deadline or one that has not passed by the
      master's clock. */
  lemma ReplicaKeysExactly(t0: nat, run: seq<Action>, s: System, r: Replica, k: bytes)
    requires Reaches(t0, run, s) && r in s.replicas && Drained(r)
    requires k in LiveView(r.store, s.now)
    ensures r.since <= |s.log|
    ensures var log := s.log[r.since..];
            var i := LastTouch(log, k);
            && i >= 0 && log[i].cmd.Set?
            && (k in LiveView(s.master, s.now) && s.master[k].value == r.store[k].value
                <==> k !in r.gone && (log[i].cmd.px.None? || s.now < log[i].at + log[i].cmd.px.value))
  {
    hide Reaches, Parse, FromValue, Replay, RawLog, GoodReplica, GoodEntry;
    RunKeeps(t0, run, s);
    Ideals(s, r);
    var log := s.log[r.since..];
    ReplayKeys(map[], log, r.times, k);
    var i := LastTouch(log, k);
    assert i >= 0 by {
      var e :| e in log && Writes(e.cmd, k);
      assert Touches(e.cmd, k);
    }
    LastWriteDecides(t0, run, s, r, k, i);
  }

  // --------------------------------------------------------- without expiry

  ghost predicate NoPx(log: seq<Logged>) {
    forall e <- log :: e.cmd.Set? ==> e.cmd.px.None?
  }

  ghost predicate Plain(m: Table) {
    forall k <- m :: m[k].expires.None?
  }

  ghost predicate PlainRun(s: System) {
    NoPx(s.log) ==> Plain(s.master) && forall r <- s.replicas :: Plain(r.lost)
  }

  /** Without PX nothing ever gets a deadline. */
  lemma {:induction false} RunStaysPlain(t0: nat, run: seq<Action>, s: System)
    requires Reaches(t0, run, s)
    ensures PlainRun(s)
    decreases |run|
  {
    hide Parse, FromValue;
    if run != [] {
      var n := |run| - 1;
      var p :| Reaches(t0, run[..n], p) && Enabled(p, run[n]) && s == Do(p, run[n]);
      RunStaysPlain(t0, run[..n], p);
      PlainStep(p, run[n]);
    }
  }

  lemma PlainStep(s: System, a: Action)
    requires PlainRun(s) && Enabled(s, a)
    ensures PlainRun(Do(s, a))
  {
    hide Parse, FromValue;
    var t := Do(s, a);
    if NoPx(t.log) {
      assert forall e <- s.log :: e in t.log;
      if a.Client? && t.log != s.log {
        assert t.log[|s.log|] in t.log;
      }
      forall r <- t.replicas ensures Plain(r.lost) {
        var i :| 0 <= i < |t.replicas| && t.replicas[i] == r;
        assert i < |s.replicas| ==> s.replicas[i] in s.replicas && r.lost == s.replicas[i].lost;
      }
    }
  }

  lemma {:induction false} ReplayPlain(m: Table, log: seq<Logged>, times: seq<nat>)
    requires |log| == |times| && NoPx(log) && Plain(m)
    ensures Plain(Replay(m, log, times))
    decreases |log|
  {
    if log != [] {
      var n := |log| - 1;
      assert log[n] in log;
      ReplayPlain(m, log[..n], times[..n]);
    }
  }

  lemma TrimmedPlain(actual: Table, ideal: Table, now: nat)
    requires Trimmed(actual, ideal, now) && Plain(ideal)
    ensures actual == ideal
  {
    assert forall k <- ideal :: Live(ideal[k], now);
  }

  /** The last entry that touches k writes it. */
  ghost predicate EndsSet(log: seq<Logged>, k: bytes) {
    LastTouch(log, k) >= 0 && log[LastTouch(log, k)].cmd.Set?
  }

  /** When a drained pair agrees without deadlines: every key the master held when
      the replica registered was touched since or evicted, and of the keys written
      since, both have evicted the same. */
  ghost predicate NothingMissing(r: Replica, log: seq<Logged>) {
    && (forall k <- r.lost :: Touched(log, k) || k in r.gone)
    && (forall k <- r.gone + r.shed :: EndsSet(log, k) ==> (k in r.gone <==> k in r.shed))
  }

  /** Convergence, exactly. In a run without PX a replica always holds the replay
      of the log entries it has applied, less what it has evicted; once drained it
      equals the master if and only if nothing is missing. Where nothing was
      evicted that is: if and only if every key the master held at its
      registration was written or deleted since. */
  lemma ConvergesExactly(t0: nat, run: seq<Action>, s: System, r: Replica)
    requires Reaches(t0, run, s) && r in s.replicas && NoPx(s.log)
    ensures r.since + |r.times| <= |s.log|
    ensures r.store == Replay(map[], s.log[r.since..r.since + |r.times|], r.times) - r.shed
    ensures Drained(r) ==> (r.store == s.master <==> NothingMissing(r, s.log[r.since..]))
    ensures Drained(r) && r.gone == r.shed == {} ==>
              (r.store == s.master <==> forall k <- r.lost :: Touched(s.log[r.since..], k))
  {
    hide Reaches, Parse, FromValue, Replay, RawLog, Touched, EndsSet;
    RunKeeps(t0, run, s);
    RunStaysPlain(t0, run, s);
    var done := s.log[r.since..r.since + |r.times|];
    ReplayPlain(map[], done, r.times);
    TrimmedPlain(r.store, Replay(map[], done, r.times) - r.shed, s.now);
    if Drained(r) {
      DrainedConverges(s, r);
    }
  }

  /** Where the two ideal stores behind a drained pair agree. */
  lemma IdealsAt(lost: Table, log: seq<Logged>, times: seq<nat>, k: bytes)
    requires NoPx(log) && |times| == |log|
    ensures var m, q := Replay(lost, log, Ats(log)), Replay(map[], log, times);
            && (k in q <==> EndsSet(log, k)) && (k in q ==> k in m && m[k] == q[k])
            && (k in m <==> EndsSet(log, k) || (k in lost && !Touched(log, k)))
            && (EndsSet(log, k) ==> Touched(log, k))
  {
    hide Replay;
    var ats, i := Ats(log), LastTouch(log, k);
    if i >= 0 {
      assert Touched(log, k) by { assert log[i] in log && Touches(log[i].cmd, k); }
      ReplayLast(lost, log, ats, k, i);
      ReplayLast(map[], log, times, k, i);
      assert log[i] in log;
    } else {
      assert !Touched(log, k);
      ReplayKeys(lost, log, ats, k);
      ReplayKeys(map[], log, times, k);
    }
  }

  lemma DrainedConverges(s: System, r: Replica)
    requires Inv(s) && r in s.replicas && NoPx(s.log) && Plain(r.lost) && Drained(r)
    ensures r.store == s.master <==> NothingMissing(r, s.log[r.since..])
  {
    hide Parse, FromValue, Replay, RawLog, GoodReplica, GoodEntry, Touched, EndsSet, Trimmed;
    Ideals(s, r);
    var log, ats := s.log[r.since..], Ats(s.log[r.since..]);
    var m, q := Replay(r.lost, log, ats), Replay(map[], log, r.times);
    ReplayPlain(r.lost, log, ats);
    ReplayPlain(map[], log, r.times);
    TrimmedPlain(s.master, m - r.gone, s.now);
    TrimmedPlain(r.store, q - r.shed, s.now);
    forall k ensures (k in q <==> EndsSet(log, k)) && (k in q ==> k in m && m[k] == q[k])
             ensures k in m <==> EndsSet(log, k) || (k in r.lost && !Touched(log, k))
             ensures EndsSet(log, k) ==> Touched(log, k)
    {
      IdealsAt(r.lost, log, r.times, k);
    }
    SameMaps(m, q, r.gone, r.shed);
  }

  lemma SameMaps(m: Table, q: Table, gone: set<bytes>, shed: set<bytes>)
    requires forall k <- q :: k in m && m[k] == q[k]
    ensures q - shed == m - gone <==>
            (forall k <- m :: k !in q ==> k in gone) && (forall k <- q :: k in gone <==> k in shed)
  {
    var a, b := q - shed, m - gone;
    if a == b {
      forall k <- m ensures (k !in q ==> k in gone) && (k in q ==> (k in gone <==> k in shed)) {
        assert k in a <==> k in b;
      }
    } else {
      assert exists k :: !(k in a <==> k in b);
    }
  }

  // ---------------------------------------------------------------- progress

  function TakeMany(r: Replica, now: nat, n: nat): Replica
    decreases n
  {
    if n == 0 then r else TakeMany(TakeOne(r, now), now, n - 1)
  }

  /** Once all bytes have arrived, as many passes as there are unapplied entries
      drain the replica: no entry is ever stuck. */
  lemma {:induction false} DeliveredDrains(s: System, r: Replica, n: nat)
    requires (forall e <- s.log :: GoodEntry(e, s.now)) && GoodReplica(r, s)
    requires r.wire == [] && n == |s.log| - (r.since + |r.times|)
    ensures Drained(TakeMany(r, s.now, n))
    decreases n
  {
    hide Parse, FromValue, Replay, Trimmed;
    var k := r.since + |r.times|;
    if n == 0 {
      assert s.log[k..] == [];
    } else {
      var e := s.log[k];
      assert e in s.log && s.log[k..][0] == e && r.buffer + r.wire == r.buffer;
      assert r.buffer == e.raw + RawLog(s.log[k..][1..]);
      FrameIsLocal(e.raw, r.buffer);
      TakeKeeps(r, s);
      DeliveredDrains(s, TakeOne(r, s.now), n - 1);
    }
  }
}
