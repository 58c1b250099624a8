/** The objects of a running master and a running replica, and the step system
    they implement. A master carries the run of module Replication that it has
    taken part in, so what holds in every reachable state there holds of its
    database and its channels. */
module Nodes {
  import opened Bytes
  import opened Resp
  import opened RespBuffer
  import opened Commands
  import opened Framing
  import opened Store
  import opened Storage
  import opened WriteLog
  import opened Replication
  import opened Execution
  import Convergence

  function Raws(log: seq<Logged>): seq<bytes> {
    seq(|log|, i requires 0 <= i < |log| => log[i].raw)
  }

  lemma {:induction false} RawsConcat(log: seq<Logged>)
    ensures Concat(Raws(log)) == RawLog(log)
  {
    if log != [] {
      assert Raws(log)[1..] == Raws(log[1..]);
      RawsConcat(log[1..]);
    }
  }

  lemma RawsAppend(log: seq<Logged>, e: Logged)
    ensures Raws(log + [e]) == Raws(log) + [e.raw]
  {
  }

  /** One open channel for each replica, from the same entry of the log on. */
  ghost predicate Matched(senders: seq<Channel>, replicas: seq<Replica>) {
    && |senders| == |replicas|
    && forall i :: 0 <= i < |senders| ==> senders[i].open && senders[i].since == replicas[i].since
  }

  lemma {:induction false} RetainedMatch(senders: seq<Channel>, replicas: seq<Replica>, raw: bytes, c: Command)
    requires Matched(senders, replicas)
    ensures Matched(Retained(senders, raw), SendAll(replicas, raw, c))
  {
    if senders != [] {
      RetainedMatch(senders[1..], replicas[1..], raw, c);
      assert SendAll(replicas, raw, c)[1..] == SendAll(replicas[1..], raw, c);
    }
  }

  lemma GoneMatch(senders: seq<Channel>, replicas: seq<Replica>, keys: set<bytes>)
    requires Matched(senders, replicas)
    ensures Matched(senders, AllGone(replicas, keys))
  {
  }

  /** A write that made the master evict keys first. */
  ghost function Written(s: System, evicted: set<bytes>, raw: bytes): System
    requires Parse(raw).Frame? && Parse(raw).consumed == |raw|
  {
    Do(Do(s, MasterEvicts(evicted)), Client(raw))
  }

  /** This key was used at this moment; no other entry has changed. */
  ghost predicate UsedAt(after: Shard, before: Shard, key: bytes, at: nat) {
    && key in after && after[key].lastAccessed == at
    && forall k <- after :: k != key ==> k in before && after[k] == before[k]
  }

  /** The keys a SET has evicted, given the contents before and after. */
  function Evicted(before: Shard, after: Shard, key: bytes): set<bytes> {
    before.Keys - after.Keys - {key}
  }

  lemma SetEvicts(before: Shard, after: Shard, c: Command, now: nat)
    requires c.Set? && c.key in after
    requires forall k :: k in View(after) ==>
               k in Apply(View(before), c, now) && View(after)[k] == Apply(View(before), c, now)[k]
    ensures View(after) == Apply(View(before) - Evicted(before, after, c.key), c, now)
  {
  }

  lemma NoneEvicted(before: Shard, after: Shard, c: Command, now: nat)
    requires c.Set? && View(after) == Apply(View(before), c, now)
    ensures Evicted(before, after, c.key) == {}
  {
    assert forall k <- before :: k in View(before) && (k == c.key || k in View(after));
  }

  lemma DelNothing(m: Table, keys: seq<bytes>)
    ensures (forall k <- keys :: k !in m) ==> forall now :: Apply(m, Command.Del(keys), now) == m
  {
  }

  lemma TickIsTime(s: System, now: nat)
    requires s.now <= now
    ensures Do(s, Tick(now - s.now)) == s.(now := now)
  {
  }

  class MasterNode {
    const db: Db
    const repl: ReplicationState
    /** The run this node has been part of, and the state it led to. */
    ghost const t0: nat
    ghost var run: seq<Action>
    ghost var sys: System

    ghost predicate Valid()
      reads this, db, repl
    {
      && db.Valid()
      && repl.Valid() && !repl.isReplica
      && View(db.Contents()) == sys.master
      && repl.log == Raws(sys.log)
      && Matched(repl.senders, sys.replicas)
      && Reaches(t0, run, sys)
    }

    constructor (shardCount: nat, maxMemory: nat, hash: bytes -> nat, now: nat)
      ensures Valid() && fresh(db) && fresh(repl) && sys == Start(now) && db.maxMemory == maxMemory
    {
      db := new Db(shardCount, maxMemory, hash);
      repl := new ReplicationState(false);
      t0, run, sys := now, [], Start(now);
      new;
      hide Merge, PowerOfTwo, BitAnd, Sum;
      StartReached(now);
      assert View(map[]) == map[];
    }

    /** Time passes, bytes travel, replicas work and evict. */
    ghost method Elsewhere(a: Action)
      requires Valid() && Enabled(sys, a) && !(a.Client? || a.MasterDrops? || a.MasterEvicts? || a.Register?)
      modifies this
      ensures Valid() && sys == Do(old(sys), a)
    {
      hide Merge, PowerOfTwo, BitAnd, Sum, Reaches, Db.Valid, ReplicationState.Valid, Db.Contents, View, TakeOne;
      if a.Take? {
        TakeKeepsSince(sys.replicas[a.i], sys.now);
      }
      OneMore(t0, run, sys, a);
      run, sys := run + [a], Do(sys, a);
    }

    /** The writing arms of `execute`, on a frame from a client. Only a memory
        limit makes the node evict, and only a SET. */
    method Execute(raw: bytes, now: nat, later: nat) returns (ghost evicted: set<bytes>)
      requires Valid() && sys.now <= now <= later
      requires Parse(raw).Frame? && Parse(raw).consumed == |raw|
      modifies this, db`shards, db`used, repl
      ensures Valid() && sys == Written(old(sys).(now := now), evicted, raw)
      ensures db.maxMemory == 0 ==> evicted == {}
      ensures var d := FromValue(Parse(raw).value);
              d.Ok? && d.cmd.Set? ==> UsedAt(db.Contents(), old(db.Contents()), d.cmd.key, later)
    {
      hide Valid, Parse, FromValue, Do;
      assert Do(sys, Tick(now - sys.now)) == sys.(now := now) by { TickIsTime(sys, now); }
      Elsewhere(Tick(now - sys.now));
      var d := FromValue(Parse(raw).value);
      if d.Ok? && d.cmd.Set? {
        evicted := Set(raw, d.cmd.key, d.cmd.value, d.cmd.px, now, later);
      } else if d.Ok? && d.cmd.Del? {
        evicted := {};
        Del(raw, d.cmd.keys);
      } else {
        evicted := {};
        Ignore(raw);
      }
    }

    /** Eviction and then a write, in the step system. */
    ghost method Advance(evicted: set<bytes>, raw: bytes)
      requires Reaches(t0, run, sys) && Parse(raw).Frame? && Parse(raw).consumed == |raw|
      modifies this
      ensures Reaches(t0, run, sys) && sys == Written(old(sys), evicted, raw)
    {
      hide Reaches, Parse, FromValue;
      var s := Do(sys, MasterEvicts(evicted));
      OneMore(t0, run, sys, MasterEvicts(evicted));
      OneMore(t0, run + [MasterEvicts(evicted)], s, Client(raw));
      run, sys := run + [MasterEvicts(evicted)] + [Client(raw)], Do(s, Client(raw));
    }

    method Set(raw: bytes, key: bytes, value: bytes, px: Option<nat>, now: nat, later: nat)
      returns (ghost evicted: set<bytes>)
      requires Valid() && sys.now == now <= later
      requires Parse(raw).Frame? && Parse(raw).consumed == |raw|
      requires FromValue(Parse(raw).value) == Decoded.Ok(Command.Set(key, value, px))
      modifies this, db`shards, db`used, repl
      ensures Valid() && sys == Written(old(sys), evicted, raw)
      ensures db.maxMemory == 0 ==> evicted == {}
      ensures UsedAt(db.Contents(), old(db.Contents()), key, later)
    {
      hide Merge, PowerOfTwo, BitAnd, Sum, Reaches, Db.Valid, ReplicationState.Valid, Db.Contents, View, Parse,
        FromValue, Retained, Matched, AllGone, SendAll, Apply, Evicted;
      ghost var before, c, s := db.Contents(), Command.Set(key, value, px), sys;
      ghost var kept := ExecuteSet(db, repl, Some(raw), key, value, px, now, later);
      SetEvicts(before, db.Contents(), c, now);
      if db.maxMemory == 0 {
        NoneEvicted(before, db.Contents(), c, now);
      }
      evicted := Evicted(before, db.Contents(), key);
      GoneMatch(old(repl.senders), s.replicas, evicted);
      RetainedMatch(old(repl.senders), AllGone(s.replicas, evicted), raw, c);
      RawsAppend(s.log, Logged(raw, c, now));
      Advance(evicted, raw);
    }

    method Del(raw: bytes, keys: seq<bytes>)
      requires Valid() && Parse(raw).Frame? && Parse(raw).consumed == |raw|
      requires FromValue(Parse(raw).value) == Decoded.Ok(Command.Del(keys))
      modifies this, db`shards, db`used, repl
      ensures Valid() && sys == Written(old(sys), {}, raw)
    {
      hide Merge, PowerOfTwo, BitAnd, Sum, Reaches, Db.Valid, ReplicationState.Valid, Db.Contents, View, Parse,
        FromValue, Retained, Matched, AllGone, SendAll, Apply;
      ghost var c, s := Command.Del(keys), sys;
      SameKeys(db.Contents());
      DelNothing(s.master, keys);
      assert s.master - {} == s.master;
      var _ := ExecuteDel(db, repl, Some(raw), keys, s.now);
      GoneMatch(old(repl.senders), s.replicas, {});
      RetainedMatch(old(repl.senders), AllGone(s.replicas, {}), raw, c);
      RawsAppend(s.log, Logged(raw, c, s.now));
      Advance({}, raw);
    }

    /** Any other command leaves log and store alone. */
    ghost method Ignore(raw: bytes)
      requires Valid() && Parse(raw).Frame? && Parse(raw).consumed == |raw|
      requires var d := FromValue(Parse(raw).value); d.Ok? ==> !d.cmd.Set? && !d.cmd.Del?
      modifies this
      ensures Valid() && sys == Written(old(sys), {}, raw)
    {
      hide Merge, PowerOfTwo, BitAnd, Sum, Reaches, Db.Valid, ReplicationState.Valid, Db.Contents, View, Parse,
        FromValue, Retained, Matched, AllGone;
      assert sys.master - {} == sys.master;
      GoneMatch(repl.senders, sys.replicas, {});
      Advance({}, raw);
    }

    /** `get`: what a client reads, and the lazy removal it may cause. */
    method Get(key: bytes, now: nat) returns (r: Option<bytes>)
      requires Valid() && sys.now <= now
      modifies this, db`shards, db`used
      ensures Valid()
      ensures r == if key in LiveView(old(sys).master, now) then Some(old(sys).master[key].value) else None
      ensures sys.log == old(sys).log && LiveView(sys.master, now) == LiveView(old(sys).master, now)
      ensures sys.now == now && sys.replicas == old(sys).replicas
      ensures r.Some? ==> UsedAt(db.Contents(), old(db.Contents()), key, now)
    {
      hide Merge, PowerOfTwo, BitAnd, Sum, Reaches, ReplicationState.Valid, Db.Contents, Db.Valid, View, LiveView,
        Trimmed, AllExpired, Matched, UsedAt;
      Elsewhere(Tick(now - sys.now));
      ghost var m := db.Contents();
      r := db.Get(key, now, now);
      ghost var gone := GetDrops(db.Contents(), m, key, now);
      DropStep(t0, run, sys, gone);
      run, sys := run + [MasterDrops(gone)], sys.(master := sys.master - gone);
    }

    /** The background purge. */
    method Purge(sample: nat, now: nat) returns (purged: nat)
      requires Valid() && sys.now <= now
      modifies this, db`shards, db`used
      ensures Valid()
      ensures sys.log == old(sys).log && LiveView(sys.master, now) == LiveView(old(sys).master, now)
      ensures sys.now == now && sys.replicas == old(sys).replicas
    {
      hide Merge, PowerOfTwo, BitAnd, Sum, Reaches, ReplicationState.Valid, Db.Contents, Db.Valid, View, Trimmed,
        LiveView, AllExpired, Matched, Expired, Within, Swept;
      Elsewhere(Tick(now - sys.now));
      ghost var m := db.Contents();
      ghost var samples: seq<seq<bytes>>;
      purged, samples := db.PurgeExpiredSample(sample, now);
      ghost var gone := m.Keys - db.Contents().Keys;
      TrimmedIsDropped(db.Contents(), m, now);
      DropStep(t0, run, sys, gone);
      run, sys := run + [MasterDrops(gone)], sys.(master := sys.master - gone);
    }

    /** PSYNC: an empty snapshot, and a channel from here on. */
    method Register()
      requires Valid()
      modifies this, repl
      ensures Valid() && sys == Do(old(sys), Action.Register)
    {
      hide Merge, PowerOfTwo, BitAnd, Sum, Reaches, Db.Valid, Db.Contents, View;
      OneMore(t0, run, sys, Action.Register);
      repl.RegisterDownstream();
      run, sys := run + [Action.Register], Do(sys, Action.Register);
    }

    /** Replication of this database. Its offset is the one of the step system;
        what channel i has carried and its replica has not processed is what the
        replica has buffered or not received; and without expiries a replica that has
        received and processed everything holds the very contents of the database
        if and only if nothing is missing, by what was stored when it registered
        and what either side has evicted. */
    lemma Replicates(i: nat)
      requires Valid() && i < |repl.senders|
      ensures repl.offset == sys.offset
      ensures var r := sys.replicas[i];
              && r.since <= |sys.log|
              && r.processed <= |Concat(repl.senders[i].sent)|
              && Concat(repl.senders[i].sent)[r.processed..] == r.buffer + r.wire
              && (Convergence.NoPx(sys.log) && Convergence.Drained(r) ==>
                    (r.store == View(db.Contents()) <==>
                     Convergence.NothingMissing(r, sys.log[r.since..])))
    {
      hide Merge, PowerOfTwo, BitAnd, Sum, Reaches, Db.Valid, Db.Contents, View, Replay, Trimmed, Parse, FromValue,
        RawLog, Convergence.NothingMissing;
      var r := sys.replicas[i];
      RunKeeps(t0, run, sys);
      assert r in sys.replicas && GoodReplica(r, sys);
      if Convergence.NoPx(sys.log) {
        Convergence.ConvergesExactly(t0, run, sys, r);
      }
      RawsConcat(sys.log);
      SplitAt(sys.log, r.since, r.since + |r.times|);
      assert repl.senders[i].sent == Raws(sys.log[r.since..]);
    }
  }

  /** A replica that has evicted keys. */
  function Shedding(r: Replica, keys: set<bytes>): Replica {
    r.(store := r.store - keys, shed := r.shed + keys)
  }

  /** One Take after another, each after some evictions. */
  function TakeEach(r: Replica, now: nat, evicted: seq<set<bytes>>): Replica {
    if evicted == [] then r else
    var n := |evicted| - 1;
    TakeOne(Shedding(TakeEach(r, now, evicted[..n]), evicted[n]), now)
  }

  /** A replica in its command loop. */
  class ReplicaNode {
    const db: Db
    const repl: ReplicationState
    const buffer: BytesMut
    var processed: nat
    ghost var since: nat
    ghost var lost: Table
    ghost var wire: bytes
    ghost var times: seq<nat>
    ghost var gone: set<bytes>
    ghost var shed: set<bytes>

    ghost predicate Valid()
      reads this, db, repl
    {
      db.Valid() && repl.Valid() && repl.isReplica
    }

    /** The replica as the step system sees it. */
    ghost function Abs(): Replica
      reads this, db, buffer
    {
      Replica(since, lost, wire, buffer.data, times, View(db.Contents()), processed, gone, shed)
    }

    constructor (shardCount: nat, maxMemory: nat, hash: bytes -> nat, ghost master: System)
      ensures Valid() && fresh(db) && fresh(repl) && fresh(buffer)
      ensures Abs() == Newcomer(master) && db.maxMemory == maxMemory
    {
      db := new Db(shardCount, maxMemory, hash);
      repl := new ReplicationState(true);
      buffer := new BytesMut([]);
      processed := 0;
      since, lost, wire, times, gone, shed := |master.log|, master.master, [], [], {}, {};
      new;
      hide Merge, PowerOfTwo, BitAnd, Sum;
      assert View(map[]) == map[];
    }

    /** The master has sent more, or evicted keys. */
    ghost method Upstream(r: Replica)
      requires Valid() && r == Abs().(wire := r.wire, gone := r.gone)
      modifies this
      ensures Valid() && Abs() == r
    {
      hide Merge, PowerOfTwo, BitAnd, Sum, Db.Valid, Db.Contents, View;
      wire, gone := r.wire, r.gone;
    }

    /** A read from the master. */
    method Receive(chunk: bytes)
      requires Valid() && chunk <= wire
      modifies this, buffer
      ensures Valid()
      ensures Abs() == old(Abs()).(buffer := old(buffer.data) + chunk, wire := old(wire)[|chunk|..])
    {
      hide Merge, PowerOfTwo, BitAnd, Sum, Db.Valid, Db.Contents, View;
      buffer.Extend(chunk);
      wire := wire[|chunk|..];
    }

    /** One round of the inner loop is one Take of the step system, after what a
        memory limit makes it evict. The stream of a master holds writes only;
        other commands do nothing here. */
    method TakeFrame(now: nat, later: nat) returns (more: bool, ghost evicted: set<bytes>)
      requires Valid() && now <= later
      modifies this, buffer, db`shards, db`used, repl
      ensures Valid() && Abs() == TakeOne(Shedding(old(Abs()), evicted), now)
      ensures more <==> Parse(old(buffer.data)).Frame?
      ensures db.maxMemory == 0 ==> evicted == {}
      ensures more ==> var d := FromValue(Parse(old(buffer.data)).value);
                       d.Ok? && d.cmd.Set? ==> UsedAt(db.Contents(), old(db.Contents()), d.cmd.key, later)
    {
      hide Merge, PowerOfTwo, BitAnd, Sum, Db.Valid, Db.Contents, View, Parse, FromValue, Evicted, Names, Apply,
        UsedAt;
      var cursor := buffer.Clone();
      var r := Read(cursor);
      evicted := {};
      assert View(db.Contents()) - {} == View(db.Contents());
      match r
      case Ok(None) => more := false;
      case Err(_) =>
        buffer.Advance(1);
        more := false;
      case Ok(Some(v)) =>
        var consumed := |buffer.data| - |cursor.data|;
        buffer.Advance(consumed);
        var d := FromValue(v);
        evicted := ExecuteSilently(d, now, later);
        processed := processed + consumed;
        times := times + [now];
        shed := shed + evicted - (if d.Ok? then Names(d.cmd) else {});
        more := true;
    }

    /** The writing arms of `execute`, with no raw bytes to propagate. */
    method ExecuteSilently(d: Decoded, now: nat, later: nat) returns (ghost evicted: set<bytes>)
      requires Valid() && now <= later
      modifies db`shards, db`used, repl
      ensures Valid()
      ensures View(db.Contents()) == var m := View(old(db.Contents())) - evicted;
                                     if d.Ok? then Apply(m, d.cmd, now) else m
      ensures db.maxMemory == 0 ==> evicted == {}
      ensures d.Ok? && d.cmd.Set? ==> UsedAt(db.Contents(), old(db.Contents()), d.cmd.key, later)
    {
      hide Merge, PowerOfTwo, BitAnd, Sum, Db.Valid, Db.Contents, View, Evicted;
      evicted := {};
      ghost var before := db.Contents();
      assert View(before) - {} == View(before);
      if d.Ok? && d.cmd.Set? {
        ghost var kept := ExecuteSet(db, repl, None, d.cmd.key, d.cmd.value, d.cmd.px, now, later);
        SetEvicts(before, db.Contents(), d.cmd, now);
        if db.maxMemory == 0 {
          NoneEvicted(before, db.Contents(), d.cmd, now);
        }
        evicted := Evicted(before, db.Contents(), d.cmd.key);
      } else if d.Ok? && d.cmd.Del? {
        var _ := ExecuteDel(db, repl, None, d.cmd.keys, now);
      }
    }

    /** The inner loop, at one moment: as many Takes as it has rounds. */
    method Pass(now: nat, later: nat) returns (ghost evicted: seq<set<bytes>>)
      requires Valid() && now <= later
      modifies this, buffer, db`shards, db`used, repl
      ensures Valid() && Abs() == TakeEach(old(Abs()), now, evicted)
      ensures buffer.data == Drain(old(buffer.data)).left
      ensures db.maxMemory == 0 ==> forall e <- evicted :: e == {}
    {
      hide Merge, PowerOfTwo, BitAnd, Sum, Db.Valid, Db.Contents, View, Parse, TakeOne;
      evicted := [];
      var more := true;
      while more
        invariant Valid() && Abs() == TakeEach(old(Abs()), now, evicted)
        invariant Drain(old(buffer.data)).left == if more then Drain(buffer.data).left else buffer.data
        invariant db.maxMemory == 0 ==> forall e <- evicted :: e == {}
        decreases more, |buffer.data|
      {
        ghost var before, keys := Abs(), {};
        more, keys := TakeFrame(now, later);
        TakeBuffer(Shedding(before, keys), now);
        ghost var all := evicted + [keys];
        assert all[..|evicted|] == evicted;
        evicted := all;
      }
    }
  }

  lemma TakeBuffer(r: Replica, now: nat)
    ensures TakeOne(r, now).buffer ==
            match Parse(r.buffer)
            case NeedMore => r.buffer
            case Failed(_, _) => r.buffer[1..]
            case Frame(_, n) => r.buffer[n..]
  {
    hide Parse, FromValue, Apply;
  }

  /** What a read does to the store, as a step and to the access time. */
  lemma GetDrops(after: Shard, m: Shard, key: bytes, now: nat) returns (gone: set<bytes>)
    requires if key !in m then after == m
             else if Expired(m[key], now) then after == m - {key}
             else after == m[key := m[key].(lastAccessed := now)]
    ensures View(after) == View(m) - gone && AllExpired(View(m), gone, now)
    ensures LiveView(View(after), now) == LiveView(View(m), now)
    ensures key in LiveView(View(m), now) <==> key in m && !Expired(m[key], now)
    ensures key in m ==> key in View(m) && View(m)[key].value == m[key].value
    ensures key in m && !Expired(m[key], now) ==> UsedAt(after, m, key, now)
  {
    gone := if key in m && Expired(m[key], now) then {key} else {};
  }

  lemma DropStep(t0: nat, run: seq<Action>, s: System, gone: set<bytes>)
    requires Reaches(t0, run, s) && AllExpired(s.master, gone, s.now)
    ensures Reaches(t0, run + [MasterDrops(gone)], s.(master := s.master - gone))
  {
    hide Reaches;
    OneMore(t0, run, s, MasterDrops(gone));
  }

  lemma TrimmedIsDropped(after: Shard, before: Shard, now: nat)
    requires Trimmed(View(after), View(before), now)
    ensures View(after) == View(before) - (before.Keys - after.Keys)
    ensures AllExpired(View(before), before.Keys - after.Keys, now)
    ensures LiveView(View(after), now) == LiveView(View(before), now)
  {
  }

  lemma SplitAt(log: seq<Logged>, a: nat, b: nat)
    requires a <= b <= |log|
    ensures Concat(Raws(log[a..])) == RawLog(log[a..b]) + RawLog(log[b..])
  {
    RawsConcat(log[a..]);
    RawLogAppend(log[a..b], log[b..]);
    assert log[a..b] + log[b..] == log[a..];
  }

  lemma SameKeys(m: Shard)
    ensures View(m).Keys == m.Keys
  {
  }

  lemma TakeKeepsSince(r: Replica, now: nat)
    ensures TakeOne(r, now).since == r.since
  {
    hide Parse, FromValue, Apply;
  }
}
