/** A master object and a replica object with a connection between them. Whatever
    the two do and however the bytes travel, the replica object is the replica
    that the master's run speaks of, so convergence is about two databases. */
module Links {
  import opened Bytes
  import opened Resp
  import opened Commands
  import opened Framing
  import opened Store
  import opened Storage
  import opened WriteLog
  import opened Replication
  import opened Nodes
  import Convergence

  class Link {
    const master: MasterNode
    const replica: ReplicaNode
    ghost const i: nat

    ghost predicate Valid()
      reads this, master, master.db, master.repl, replica, replica.db, replica.repl, replica.buffer
    {
      && master.Valid() && replica.Valid()
      && master.db != replica.db && master.repl != replica.repl
      && i < |master.sys.replicas| && replica.Abs() == master.sys.replicas[i]
    }

    /** PSYNC from a fresh replica. */
    constructor (m: MasterNode, shardCount: nat, maxMemory: nat, hash: bytes -> nat)
      requires m.Valid()
      modifies m, m.repl
      ensures Valid() && master == m && fresh(replica)
      ensures m.sys == Do(old(m.sys), Register) && View(m.db.Contents()) == old(View(m.db.Contents()))
    {
      hide MasterNode.Valid, ReplicaNode.Valid, Db.Contents, View;
      master := m;
      i := |m.sys.replicas|;
      replica := new ReplicaNode(shardCount, maxMemory, hash, m.sys);
      new;
      assert m.db != replica.db && m.repl != replica.repl;
      m.Register();
    }

    /** A client writes to the master. */
    method Write(raw: bytes, now: nat, later: nat)
      requires Valid() && master.sys.now <= now <= later
      requires Parse(raw).Frame? && Parse(raw).consumed == |raw|
      modifies master, master.db`shards, master.db`used, master.repl, replica
      ensures Valid() && exists evicted :: master.sys == Written(old(master.sys).(now := now), evicted, raw)
    {
      hide MasterNode.Valid, ReplicaNode.Valid, Db.Contents, View, Parse, FromValue, Written;
      ghost var s := master.sys.(now := now);
      ghost var evicted := master.Execute(raw, now, later);
      WriteReaches(s, evicted, raw, i);
      replica.Upstream(master.sys.replicas[i]);
    }

    /** Some of what was sent arrives. */
    method Arrive(chunk: bytes)
      requires Valid() && chunk <= replica.wire
      modifies master, replica, replica.buffer
      ensures Valid() && master.sys == Do(old(master.sys), Deliver(i, |chunk|))
    {
      hide MasterNode.Valid, ReplicaNode.Valid, Db.Contents, View;
      assert replica.wire[..|chunk|] == chunk;
      master.Elsewhere(Deliver(i, |chunk|));
      replica.Receive(chunk);
    }

    /** One round of the replica's loop. */
    method Work(now: nat, later: nat) returns (more: bool)
      requires Valid() && master.sys.now <= now <= later
      modifies master, replica, replica.buffer, replica.db`shards, replica.db`used, replica.repl
      ensures Valid() && (more <==> Parse(old(replica.buffer.data)).Frame?)
      ensures master.sys.log == old(master.sys.log) && replica.wire == old(replica.wire)
    {
      hide MasterNode.Valid, ReplicaNode.Valid, Db.Contents, View, Parse, TakeOne;
      ghost var r, evicted := replica.Abs(), {};
      master.Elsewhere(Tick(now - master.sys.now));
      more, evicted := replica.TakeFrame(now, later);
      master.Elsewhere(ReplicaEvicts(i, evicted));
      master.Elsewhere(Take(i));
      TakeKeepsWire(Shedding(r, evicted), now);
    }

    /** The master purges expired entries. */
    method Purge(sample: nat, now: nat)
      requires Valid() && master.sys.now <= now
      modifies master, master.db`shards, master.db`used
      ensures Valid() && master.sys.log == old(master.sys.log) && master.sys.replicas == old(master.sys.replicas)
    {
      hide MasterNode.Valid, ReplicaNode.Valid, Db.Contents, View;
      var _ := master.Purge(sample, now);
    }

    /** Without expiries, a replica that has received and processed everything
        holds the same keys and values as its master if and only if nothing is
        missing; without evictions, if and only if every key that the master held
        at PSYNC was touched since. Before that, what it lacks is exactly what its
        channel has carried beyond the bytes it has processed. */
    lemma Agree()
      requires Valid()
      ensures i < |master.repl.senders| && replica.since <= |master.sys.log|
      ensures replica.processed <= |Concat(master.repl.senders[i].sent)|
      ensures Concat(master.repl.senders[i].sent)[replica.processed..] == replica.buffer.data + replica.wire
      ensures replica.buffer.data == replica.wire == [] && Convergence.NoPx(master.sys.log) ==>
                var log := master.sys.log[replica.since..];
                && (View(replica.db.Contents()) == View(master.db.Contents())
                    <==> Convergence.NothingMissing(replica.Abs(), log))
                && (replica.gone == replica.shed == {} ==>
                      (View(replica.db.Contents()) == View(master.db.Contents())
                       <==> forall k <- replica.lost :: Touched(log, k)))
    {
      hide ReplicaNode.Valid, Db.Valid, Db.Contents, View, Touched, Convergence.EndsSet, Reaches;
      master.Replicates(i);
    }
  }

  lemma WriteReaches(s: System, evicted: set<bytes>, raw: bytes, i: nat)
    requires Parse(raw).Frame? && Parse(raw).consumed == |raw| && i < |s.replicas|
    ensures var t := Written(s, evicted, raw);
            && |t.replicas| == |s.replicas|
            && t.replicas[i] == s.replicas[i].(wire := t.replicas[i].wire, gone := t.replicas[i].gone)
  {
    hide Parse, FromValue, Apply, Names;
  }

  lemma TakeKeepsWire(r: Replica, now: nat)
    ensures TakeOne(r, now).wire == r.wire
  {
    hide Parse, FromValue, Apply, Names;
  }
}
