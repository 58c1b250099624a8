/** Master and replicas as one step system. Clients send commands, time passes,
    expired entries are dropped on any node at any moment, replicas register,
    bytes travel in arbitrary pieces, and each replica frames and applies what
    it has. Any node may evict any keys, as memory limits make it do, and tells
    nobody. One command and its propagation are one step; nobody writes to a
    replica directly. */
module Replication {
  import opened Bytes
  import opened Resp
  import opened RespLocality
  import opened Commands
  import opened Store
  import opened WriteLog

  /** A registered replica. `lost` is the master's store when it registered,
      which it never receives: the snapshot sent is always empty. `times` are the
      moments at which it applied the log entries from `since` on. `gone` are keys
      the master has evicted since and not touched again, `shed` are keys the
      replica has evicted and not touched again. */
  datatype Replica = Replica(
    since: nat, lost: Table, wire: bytes, buffer: bytes, times: seq<nat>, store: Table, processed: nat,
    gone: set<bytes>, shed: set<bytes>)

  datatype System = System(now: nat, master: Table, log: seq<Logged>, offset: nat, replicas: seq<Replica>)

  datatype Action =
    | Tick(d: nat)
    | Client(raw: bytes)
    | MasterDrops(keys: set<bytes>)
    | MasterEvicts(keys: set<bytes>)
    | Register
    | Deliver(i: nat, n: nat)
    | Take(i: nat)
    | ReplicaDrops(i: nat, keys: set<bytes>)
    | ReplicaEvicts(i: nat, keys: set<bytes>)

  ghost predicate AllExpired(m: Table, keys: set<bytes>, now: nat) {
    forall k <- keys :: k in m ==> !Live(m[k], now)
  }

  ghost predicate Enabled(s: System, a: Action) {
    match a
    case Client(raw) => Parse(raw).Frame? && Parse(raw).consumed == |raw|
    case MasterDrops(keys) => AllExpired(s.master, keys, s.now)
    case Deliver(i, n) => i < |s.replicas| && n <= |s.replicas[i].wire|
    case Take(i) => i < |s.replicas|
    case ReplicaDrops(i, keys) => i < |s.replicas| && AllExpired(s.replicas[i].store, keys, s.now)
    case ReplicaEvicts(i, _) => i < |s.replicas|
    case _ => true
  }

  /** SET is always propagated, DEL when it removed something. */
  predicate Propagated(d: Decoded, m: Table) {
    d.Ok? && (d.cmd.Set? || (d.cmd.Del? && exists k <- d.cmd.keys :: k in m))
  }

  /** A write is sent to every replica. */
  function SendTo(r: Replica, raw: bytes, c: Command): Replica {
    r.(wire := r.wire + raw, gone := r.gone - Names(c))
  }

  function SendAll(rs: seq<Replica>, raw: bytes, c: Command): seq<Replica> {
    seq(|rs|, i requires 0 <= i < |rs| => SendTo(rs[i], raw, c))
  }

  function AllGone(rs: seq<Replica>, keys: set<bytes>): seq<Replica> {
    seq(|rs|, i requires 0 <= i < |rs| => rs[i].(gone := rs[i].gone + keys))
  }

  function Newcomer(s: System): Replica {
    Replica(|s.log|, s.master, [], [], [], map[], 0, {}, {})
  }

  /** One pass of the replica's parser over its buffer. */
  function TakeOne(r: Replica, now: nat): Replica {
    match Parse(r.buffer)
    case NeedMore => r
    case Failed(_, _) => r.(buffer := r.buffer[1..])
    case Frame(v, n) =>
      var d := FromValue(v);
      r.(buffer := r.buffer[n..], processed := r.processed + n, times := r.times + [now],
         store := if d.Ok? then Apply(r.store, d.cmd, now) else r.store,
         shed := if d.Ok? then r.shed - Names(d.cmd) else r.shed)
  }

  ghost function Do(s: System, a: Action): System
    requires Enabled(s, a)
  {
    match a
    case Tick(d) => s.(now := s.now + d)
    case Client(raw) =>
      var d := FromValue(Parse(raw).value);
      if !Propagated(d, s.master) then s
      else s.(master := Apply(s.master, d.cmd, s.now), log := s.log + [Logged(raw, d.cmd, s.now)],
              offset := s.offset + |raw|, replicas := SendAll(s.replicas, raw, d.cmd))
    case MasterDrops(keys) => s.(master := s.master - keys)
    case MasterEvicts(keys) => s.(master := s.master - keys, replicas := AllGone(s.replicas, keys))
    case Register => s.(replicas := s.replicas + [Newcomer(s)])
    case Deliver(i, n) =>
      var r := s.replicas[i];
      s.(replicas := s.replicas[i := r.(buffer := r.buffer + r.wire[..n], wire := r.wire[n..])])
    case Take(i) => s.(replicas := s.replicas[i := TakeOne(s.replicas[i], s.now)])
    case ReplicaDrops(i, keys) =>
      var r := s.replicas[i];
      s.(replicas := s.replicas[i := r.(store := r.store - keys)])
    case ReplicaEvicts(i, keys) =>
      var r := s.replicas[i];
      s.(replicas := s.replicas[i := r.(store := r.store - keys, shed := r.shed + keys)])
  }

  function Start(now: nat): System {
    System(now, map[], [], 0, [])
  }

  /** s is reached from a fresh master by a run of enabled actions. */
  ghost predicate Reaches(t0: nat, run: seq<Action>, s: System)
    decreases |run|
  {
    if run == [] then s == Start(t0) else
    var n := |run| - 1;
    exists p :: Reaches(t0, run[..n], p) && Enabled(p, run[n]) && s == Do(p, run[n])
  }

  lemma StartReached(t0: nat)
    ensures Reaches(t0, [], Start(t0))
  {
  }

  lemma OneMore(t0: nat, run: seq<Action>, s: System, a: Action)
    requires Reaches(t0, run, s) && Enabled(s, a)
    ensures Reaches(t0, run + [a], Do(s, a))
  {
    hide Enabled, Do;
    assert (run + [a])[..|run|] == run;
  }

  // -------------------------------------------------------------- invariant

  /** A log entry is the complete encoding of a write. */
  ghost predicate GoodEntry(e: Logged, now: nat) {
    && Parse(e.raw).Frame? && Parse(e.raw).consumed == |e.raw|
    && FromValue(Parse(e.raw).value) == Ok(e.cmd) && (e.cmd.Set? || e.cmd.Del?)
    && e.at <= now
  }

  /** Bytes not yet applied are exactly the rest of the log, and every byte of
      an applied entry has been counted once. */
  ghost predicate BytesInOrder(r: Replica, log: seq<Logged>) {
    && r.since + |r.times| <= |log|
    && r.buffer + r.wire == RawLog(log[r.since + |r.times|..])
    && r.processed == |RawLog(log[r.since..r.since + |r.times|])|
  }

  ghost predicate TimesInOrder(r: Replica, log: seq<Logged>, now: nat) {
    && r.since + |r.times| <= |log|
    && forall j :: 0 <= j < |r.times| ==> log[r.since + j].at <= r.times[j] <= now
  }

  /** The replica holds the replay of what it applied, from an empty store, less
      what it has evicted. */
  ghost predicate HoldsReplay(r: Replica, log: seq<Logged>, now: nat) {
    && r.since + |r.times| <= |log|
    && Trimmed(r.store, Replay(map[], log[r.since..r.since + |r.times|], r.times) - r.shed, now)
  }

  /** The master holds the replay of everything since r registered, less what it
      has evicted. */
  ghost predicate MasterSince(r: Replica, log: seq<Logged>, master: Table, now: nat) {
    && r.since <= |log|
    && Trimmed(master, Replay(r.lost, log[r.since..], Ats(log[r.since..])) - r.gone, now)
  }

  ghost predicate GoodReplica(r: Replica, s: System) {
    && BytesInOrder(r, s.log)
    && TimesInOrder(r, s.log, s.now)
    && HoldsReplay(r, s.log, s.now)
    && MasterSince(r, s.log, s.master, s.now)
  }

  ghost predicate Inv(s: System) {
    && s.offset == |RawLog(s.log)|
    && (forall e <- s.log :: GoodEntry(e, s.now))
    && (forall r <- s.replicas :: GoodReplica(r, s))
  }

  // ------------------------------------------------- one lemma for each step

  lemma TickKeeps(r: Replica, s: System, d: nat)
    requires GoodReplica(r, s)
    ensures GoodReplica(r, s.(now := s.now + d))
  {
    hide Replay;
    var later := s.now + d;
    TrimmedUnseen(r.store, Replay(map[], s.log[r.since..r.since + |r.times|], r.times) - r.shed, s.now, later);
    TrimmedUnseen(s.master, Replay(r.lost, s.log[r.since..], Ats(s.log[r.since..])) - r.gone, s.now, later);
  }

  lemma CommitBytes(r: Replica, log: seq<Logged>, e: Logged)
    requires BytesInOrder(r, log)
    ensures BytesInOrder(SendTo(r, e.raw, e.cmd), log + [e])
  {
    var n := r.since + |r.times|;
    assert (log + [e])[n..] == log[n..] + [e];
    RawLogAppend(log[n..], [e]);
    assert RawLog([e]) == e.raw;
    assert (log + [e])[r.since..n] == log[r.since..n];
    assert r.buffer + (r.wire + e.raw) == (r.buffer + r.wire) + e.raw;
  }

  lemma CommitMaster(r: Replica, s: System, e: Logged)
    requires MasterSince(r, s.log, s.master, s.now) && e.at == s.now
    ensures MasterSince(SendTo(r, e.raw, e.cmd), s.log + [e], Apply(s.master, e.cmd, s.now), s.now)
  {
    hide Replay, Trimmed, Apply, Names;
    var before, log := s.log[r.since..], s.log + [e];
    assert log[r.since..] == before + [e];
    assert Ats(log[r.since..]) == Ats(before) + [e.at];
    ReplayAppend(r.lost, before, Ats(before), e, e.at);
    TrimmedApply(s.master, Replay(r.lost, before, Ats(before)) - r.gone, e.cmd, s.now);
    ApplyMissing(Replay(r.lost, before, Ats(before)), r.gone, e.cmd, s.now);
  }

  lemma CommitKeeps(r: Replica, s: System, e: Logged)
    requires GoodReplica(r, s) && e.at == s.now
    ensures GoodReplica(SendTo(r, e.raw, e.cmd),
                        s.(log := s.log + [e], master := Apply(s.master, e.cmd, s.now)))
  {
    hide Replay, Trimmed, Apply, RawLog, MasterSince;
    CommitBytes(r, s.log, e);
    CommitMaster(r, s, e);
    var q, log := SendTo(r, e.raw, e.cmd), s.log + [e];
    assert log[r.since..r.since + |r.times|] == s.log[r.since..r.since + |r.times|];
    assert HoldsReplay(q, log, s.now);
  }

  lemma MasterIgnoresWire(r: Replica, q: Replica, log: seq<Logged>, master: Table, now: nat)
    requires MasterSince(r, log, master, now) && q.since == r.since && q.lost == r.lost && q.gone == r.gone
    ensures MasterSince(q, log, master, now)
  {
    hide Replay, Trimmed;
  }

  lemma DropKeeps(actual: Table, ideal: Table, keys: set<bytes>, now: nat)
    requires Trimmed(actual, ideal, now) && AllExpired(actual, keys, now)
    ensures Trimmed(actual - keys, ideal, now)
  {
  }

  lemma DeliverKeeps(r: Replica, s: System, n: nat)
    requires GoodReplica(r, s) && n <= |r.wire|
    ensures GoodReplica(r.(buffer := r.buffer + r.wire[..n], wire := r.wire[n..]), s)
  {
    hide Replay;
    assert r.buffer + r.wire[..n] + r.wire[n..] == r.buffer + r.wire;
  }

  /** What the parser finds at the head of the buffer is the next log entry, or
      nothing yet: never an error, never another frame. */
  lemma TakesNextEntry(r: Replica, s: System)
    requires GoodReplica(r, s) && forall e <- s.log :: GoodEntry(e, s.now)
    ensures var n := r.since + |r.times|;
            || Parse(r.buffer) == NeedMore
            || (&& n < |s.log| && Parse(r.buffer) == Parse(s.log[n].raw)
                && s.log[n].raw <= r.buffer)
  {
    hide Parse, FromValue, TimesInOrder, HoldsReplay, MasterSince;
    var n := r.since + |r.times|;
    if n == |s.log| {
      assert r.buffer == [];
      EmptyNeedsMore();
    } else {
      var e, rest := s.log[n], s.log[n + 1..];
      assert e in s.log;
      assert s.log[n..][0] == e && s.log[n..][1..] == rest;
      var pending := r.buffer + r.wire;
      assert pending == e.raw + RawLog(rest);
      if |r.buffer| < |e.raw| {
        assert r.buffer == pending[..|r.buffer|] == e.raw[..|r.buffer|];
        PrefixNeedsMore(e.raw, |r.buffer|);
      } else {
        assert r.buffer[..|e.raw|] == pending[..|e.raw|] == e.raw == e.raw[..|e.raw|];
        FrameIsLocal(e.raw, r.buffer);
      }
    }
  }

  lemma TakeKeeps(r: Replica, s: System)
    requires GoodReplica(r, s) && forall e <- s.log :: GoodEntry(e, s.now)
    ensures GoodReplica(TakeOne(r, s.now), s)
  {
    hide Parse, Replay, FromValue, RawLog, Trimmed, Apply, HoldsReplay, MasterSince;
    TakesNextEntry(r, s);
    if Parse(r.buffer) != NeedMore {
      var n, q := r.since + |r.times|, TakeOne(r, s.now);
      var e := s.log[n];
      assert e in s.log;
      TakeBytes(r, q, s.log, e);
      TakeStore(r, q, s.log, e, s.now);
      MasterIgnoresWire(r, q, s.log, s.master, s.now);
    }
  }

  lemma TakeStore(r: Replica, q: Replica, log: seq<Logged>, e: Logged, now: nat)
    requires HoldsReplay(r, log, now) && r.since + |r.times| < |log| && e == log[r.since + |r.times|]
    requires q.since == r.since && q.times == r.times + [now] && q.store == Apply(r.store, e.cmd, now)
    requires q.shed == r.shed - Names(e.cmd)
    ensures HoldsReplay(q, log, now)
  {
    hide Replay, Trimmed, Apply, Names;
    var n := r.since + |r.times|;
    assert log[r.since..n + 1] == log[r.since..n] + [e];
    ReplayAppend(map[], log[r.since..n], r.times, e, now);
    TrimmedApply(r.store, Replay(map[], log[r.since..n], r.times) - r.shed, e.cmd, now);
    ApplyMissing(Replay(map[], log[r.since..n], r.times), r.shed, e.cmd, now);
  }

  lemma TakeBytes(r: Replica, q: Replica, log: seq<Logged>, e: Logged)
    requires BytesInOrder(r, log) && r.since + |r.times| < |log| && e == log[r.since + |r.times|]
    requires e.raw <= r.buffer && |q.times| == |r.times| + 1 && q.since == r.since && q.wire == r.wire
    requires q.buffer == r.buffer[|e.raw|..] && q.processed == r.processed + |e.raw|
    ensures BytesInOrder(q, log)
  {
    var n := r.since + |r.times|;
    assert log[n..] == [e] + log[n + 1..];
    RawLogAppend([e], log[n + 1..]);
    assert RawLog([e]) == e.raw;
    assert q.buffer + q.wire == (r.buffer + r.wire)[|e.raw|..];
    assert log[r.since..n + 1] == log[r.since..n] + [e];
    RawLogAppend(log[r.since..n], [e]);
  }

  lemma RegisterKeeps(s: System)
    ensures GoodReplica(Newcomer(s), s)
  {
    hide Replay, Trimmed;
    assert s.log[|s.log|..] == [] && s.log[|s.log|..|s.log|] == [] && Ats([]) == [];
    NothingReplayed(s.master, s.now);
    NothingReplayed(map[], s.now);
  }

  lemma NothingReplayed(m: Table, now: nat)
    ensures Trimmed(m, Replay(m, [], []) - {}, now)
  {
    assert m - {} == m;
  }

  lemma TickStep(s: System, d: nat)
    requires Inv(s)
    ensures Inv(s.(now := s.now + d))
  {
    hide GoodReplica, Parse, FromValue, RawLog;
    forall r <- s.replicas ensures GoodReplica(r, s.(now := s.now + d)) {
      TickKeeps(r, s, d);
    }
  }

  lemma ClientStep(s: System, raw: bytes)
    requires Inv(s) && Enabled(s, Client(raw))
    ensures Inv(Do(s, Client(raw)))
  {
    hide GoodReplica, Parse, FromValue, Apply, RawLog;
    var d, t := FromValue(Parse(raw).value), Do(s, Client(raw));
    if Propagated(d, s.master) {
      var e := Logged(raw, d.cmd, s.now);
      OneMoreEntry(s.log, e);
      forall r <- t.replicas ensures GoodReplica(r, t) {
        var i :| 0 <= i < |t.replicas| && t.replicas[i] == r;
        assert s.replicas[i] in s.replicas;
        CommitKeeps(s.replicas[i], s, e);
        SameView(r, s.(log := s.log + [e], master := Apply(s.master, e.cmd, s.now)), t);
      }
    }
  }

  lemma OneMoreEntry(log: seq<Logged>, e: Logged)
    ensures |RawLog(log + [e])| == |RawLog(log)| + |e.raw|
  {
    RawLogAppend(log, [e]);
    assert RawLog([e]) == e.raw;
  }

  /** A replica's condition looks at the clock, the log and the master only. */
  lemma SameView(r: Replica, s: System, t: System)
    requires GoodReplica(r, s) && t.log == s.log && t.master == s.master && t.now == s.now
    ensures GoodReplica(r, t)
  {
    hide RawLog, Replay, Trimmed;
  }

  lemma MasterDropStep(r: Replica, s: System, keys: set<bytes>)
    requires GoodReplica(r, s) && AllExpired(s.master, keys, s.now)
    ensures GoodReplica(r, s.(master := s.master - keys))
  {
    hide RawLog, Replay;
    DropKeeps(s.master, Replay(r.lost, s.log[r.since..], Ats(s.log[r.since..])) - r.gone, keys, s.now);
  }

  lemma ReplicaDropStep(r: Replica, s: System, keys: set<bytes>)
    requires GoodReplica(r, s) && AllExpired(r.store, keys, s.now)
    ensures GoodReplica(r.(store := r.store - keys), s)
  {
    hide RawLog, Replay;
    DropKeeps(r.store, Replay(map[], s.log[r.since..r.since + |r.times|], r.times) - r.shed, keys, s.now);
  }

  lemma MinusBoth(m: Table, a: set<bytes>, b: set<bytes>)
    ensures m - a - b == m - (a + b)
  {
  }

  lemma MasterEvictStep(r: Replica, s: System, keys: set<bytes>)
    requires GoodReplica(r, s)
    ensures GoodReplica(r.(gone := r.gone + keys), s.(master := s.master - keys))
  {
    hide RawLog, Replay, Trimmed;
    var ideal := Replay(r.lost, s.log[r.since..], Ats(s.log[r.since..]));
    TrimmedMinus(s.master, ideal - r.gone, keys, s.now);
    MinusBoth(ideal, r.gone, keys);
  }

  lemma ReplicaEvictStep(r: Replica, s: System, keys: set<bytes>)
    requires GoodReplica(r, s)
    ensures GoodReplica(r.(store := r.store - keys, shed := r.shed + keys), s)
  {
    hide RawLog, Replay, Trimmed;
    var ideal := Replay(map[], s.log[r.since..r.since + |r.times|], r.times);
    TrimmedMinus(r.store, ideal - r.shed, keys, s.now);
    MinusBoth(ideal, r.shed, keys);
  }

  /** Changing one replica for a good one keeps the invariant. */
  lemma OneChanges(s: System, i: nat, q: Replica)
    requires Inv(s) && i < |s.replicas| && GoodReplica(q, s)
    ensures Inv(s.(replicas := s.replicas[i := q]))
  {
    hide GoodReplica, GoodEntry, RawLog;
    var t := s.(replicas := s.replicas[i := q]);
    forall r <- t.replicas ensures GoodReplica(r, t) {
      assert r == q || r in s.replicas;
      SameView(r, s, t);
    }
  }

  /** Every action keeps the invariant. */
  lemma StepKeeps(s: System, a: Action)
    requires Inv(s) && Enabled(s, a)
    ensures Inv(Do(s, a))
  {
    hide GoodReplica, GoodEntry, Parse, FromValue, Apply, RawLog, TakeOne;
    var t := Do(s, a);
    match a
    case Tick(d) => TickStep(s, d);
    case Client(raw) => ClientStep(s, raw);
    case MasterDrops(keys) =>
      forall r <- t.replicas ensures GoodReplica(r, t) {
        MasterDropStep(r, s, keys);
      }
    case MasterEvicts(keys) =>
      forall r <- t.replicas ensures GoodReplica(r, t) {
        var i :| 0 <= i < |t.replicas| && t.replicas[i] == r;
        assert s.replicas[i] in s.replicas;
        MasterEvictStep(s.replicas[i], s, keys);
        SameView(r, s.(master := s.master - keys), t);
      }
    case Register =>
      RegisterKeeps(s);
      forall r <- t.replicas ensures GoodReplica(r, t) {
        SameView(r, s, t);
      }
    case Deliver(i, n) =>
      DeliverKeeps(s.replicas[i], s, n);
      OneChanges(s, i, t.replicas[i]);
    case Take(i) =>
      TakeKeeps(s.replicas[i], s);
      OneChanges(s, i, t.replicas[i]);
    case ReplicaDrops(i, keys) =>
      ReplicaDropStep(s.replicas[i], s, keys);
      OneChanges(s, i, t.replicas[i]);
    case ReplicaEvicts(i, keys) =>
      ReplicaEvictStep(s.replicas[i], s, keys);
      OneChanges(s, i, t.replicas[i]);
  }

  /** The invariant holds in every state of every run. */
  lemma {:induction false} RunKeeps(t0: nat, run: seq<Action>, s: System)
    requires Reaches(t0, run, s)
    ensures Inv(s)
    decreases |run|
  {
    if run != [] {
      var n := |run| - 1;
      var p :| Reaches(t0, run[..n], p) && Enabled(p, run[n]) && s == Do(p, run[n]);
      RunKeeps(t0, run[..n], p);
      StepKeeps(p, run[n]);
    }
  }
}
