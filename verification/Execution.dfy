/** The write path of the master: a command changes the sharded store, then its
    raw bytes go to every registered replica channel. */
module Execution {
  import opened Bytes
  import opened Commands
  import opened Framing
  import opened Store
  import opened Storage

  /** A replica's channel: what it was sent since its registration. */
  datatype Channel = Channel(open: bool, since: nat, sent: seq<bytes>)

  /** The senders that survive a send: a closed receiver is forgotten. */
  function Retained(senders: seq<Channel>, raw: bytes): seq<Channel> {
    if senders == [] then []
    else (if senders[0].open then [senders[0].(sent := senders[0].sent + [raw])] else [])
         + Retained(senders[1..], raw)
  }

  lemma {:induction false} RetainedFollow(senders: seq<Channel>, log: seq<bytes>, raw: bytes)
    requires forall c <- senders :: c.since <= |log| && c.sent == log[c.since..]
    ensures forall c <- Retained(senders, raw) ::
              c.open && c.since <= |log| && c.sent == (log + [raw])[c.since..]
  {
    if senders != [] {
      RetainedFollow(senders[1..], log, raw);
      var p := senders[0].since;
      assert (log + [raw])[p..] == log[p..] + [raw];
    }
  }

  lemma {:induction false} ConcatAppend(a: seq<bytes>, b: seq<bytes>)
    ensures Concat(a + b) == Concat(a) + Concat(b)
  {
    if a == [] {
      assert a + b == b;
    } else {
      assert (a + b)[1..] == a[1..] + b;
      ConcatAppend(a[1..], b);
      assert a[0] + (Concat(a[1..]) + Concat(b)) == a[0] + Concat(a[1..]) + Concat(b);
    }
  }

  /** `retain(|tx| tx.send(raw).is_ok())`. */
  method Retain(senders: seq<Channel>, raw: bytes) returns (kept: seq<Channel>)
    ensures kept == Retained(senders, raw)
  {
    kept := [];
    var i := 0;
    while i < |senders|
      invariant 0 <= i <= |senders|
      invariant kept + Retained(senders[i..], raw) == Retained(senders, raw)
    {
      ghost var tail := Retained(senders[i + 1..], raw);
      assert senders[i..][0] == senders[i] && senders[i..][1..] == senders[i + 1..];
      if senders[i].open {
        var c := senders[i].(sent := senders[i].sent + [raw]);
        assert kept + ([c] + tail) == kept + [c] + tail;
        kept := kept + [c];
      }
      i := i + 1;
    }
  }

  class ReplicationState {
    const isReplica: bool
    var offset: nat
    var connected: nat
    var senders: seq<Channel>
    /** Everything propagated since start-up: what the channels are measured by. */
    var log: seq<bytes>

    /** Every registered channel holds exactly the log from its registration on,
        and the offset is the length of the log in bytes. */
    ghost predicate Valid()
      reads this
    {
      && offset == |Concat(log)|
      && forall c <- senders :: c.since <= |log| && c.sent == log[c.since..]
    }

    constructor (isReplica: bool)
      ensures Valid() && this.isReplica == isReplica && log == [] && senders == []
    {
      this.isReplica := isReplica;
      offset, connected, senders, log := 0, 0, [], [];
    }

    /** `register_downstream`. */
    method RegisterDownstream()
      requires Valid()
      modifies this
      ensures Valid() && log == old(log) && offset == old(offset)
      ensures senders == old(senders) + [Channel(true, |log|, [])] && connected == old(connected) + 1
    {
      senders := senders + [Channel(true, |log|, [])];
      connected := connected + 1;
    }

    /** The receiving end of a channel goes away. */
    method Hangup(i: nat)
      requires Valid() && i < |senders|
      modifies this
      ensures Valid() && log == old(log) && offset == old(offset)
      ensures senders == old(senders)[i := old(senders)[i].(open := false)]
    {
      senders := senders[i := senders[i].(open := false)];
    }

    /** `propagate_downstream`. */
    method PropagateDownstream(raw: bytes)
      requires Valid()
      modifies this
      ensures Valid() && log == old(log) + [raw] && connected == old(connected)
      ensures senders == Retained(old(senders), raw)
    {
      RetainedFollow(senders, log, raw);
      ConcatAppend(log, [raw]);
      offset := offset + |raw|;
      senders := Retain(senders, raw);
      log := log + [raw];
    }

    /** In bytes: a channel carries the common log from its registration point. */
    lemma ChannelIsLogSuffix(c: Channel)
      requires Valid() && c in senders
      ensures Concat(log) == Concat(log[..c.since]) + Concat(c.sent)
      ensures |Concat(c.sent)| == offset - |Concat(log[..c.since])|
    {
      ConcatAppend(log[..c.since], c.sent);
      assert log[..c.since] + c.sent == log;
    }
  }

  // ------------------------------------------------------- arms of `execute`

  lemma ViewInsert(m: Shard, key: bytes, e: Entry)
    ensures View(m[key := e]) == View(m)[key := Seen(e)]
  {
  }

  lemma ViewRemove(m: Shard, keys: set<bytes>)
    ensures View(m - keys) == View(m) - keys
  {
  }

  /** SET: store, then propagate on a master. */
  method ExecuteSet(db: Db, repl: ReplicationState, raw: Option<bytes>,
                    key: bytes, value: bytes, px: Option<nat>, now: nat, later: nat)
    returns (ghost kept: Shard)
    requires db.Valid() && repl.Valid() && now <= later
    modifies db`shards, db`used, repl
    ensures db.Valid() && repl.Valid()
    ensures MakesRoom(kept, old(db.Contents()), db.maxMemory)
    ensures AllSmall(old(db.shards)) ==> OlderGone(kept, old(db.Contents()))
    ensures db.Contents() == kept[key := Entry(value, Expiry(px, now), later, |key| + |value| + ENTRY_BYTES)]
    ensures var want := Apply(View(old(db.Contents())), Command.Set(key, value, px), now);
            && (forall k :: k in View(db.Contents()) ==> k in want && View(db.Contents())[k] == want[k])
            && key in db.Contents() && (db.maxMemory == 0 ==> View(db.Contents()) == want)
            && (db.maxMemory > 0 ==> db.used < db.maxMemory + |key| + |value| + ENTRY_BYTES)
    ensures if !repl.isReplica && raw.Some?
            then repl.log == old(repl.log) + [raw.value] && repl.senders == Retained(old(repl.senders), raw.value)
            else unchanged(repl)
  {
    hide Merge, PowerOfTwo, BitAnd, Sum, AllSmall, OlderGone;
    kept := db.Set(key, value, Expiry(px, now), later);
    ViewInsert(kept, key, db.Contents()[key]);
    if !repl.isReplica && raw.Some? {
      repl.PropagateDownstream(raw.value);
    }
  }

  /** DEL: remove every key, count those that were present, propagate on a
      master when there was one. */
  method ExecuteDel(db: Db, repl: ReplicationState, raw: Option<bytes>, keys: seq<bytes>, ghost now: nat)
    returns (count: nat)
    requires db.Valid() && repl.Valid()
    modifies db`shards, db`used, repl
    ensures db.Valid() && repl.Valid()
    ensures View(db.Contents()) == Apply(View(old(db.Contents())), Command.Del(keys), now)
    ensures count + |db.Contents()| == |old(db.Contents())|
    ensures count > 0 <==> exists k <- keys :: k in old(db.Contents())
    ensures if count > 0 && !repl.isReplica && raw.Some?
            then repl.log == old(repl.log) + [raw.value] && repl.senders == Retained(old(repl.senders), raw.value)
            else unchanged(repl)
  {
    hide Merge, PowerOfTwo, BitAnd, Sum;
    count := DeleteAll(db, keys);
    ViewRemove(old(db.Contents()), ToSet(keys));
    if count > 0 && !repl.isReplica && raw.Some? {
      repl.PropagateDownstream(raw.value);
    }
  }

  method DeleteAll(db: Db, keys: seq<bytes>) returns (count: nat)
    requires db.Valid()
    modifies db`shards, db`used
    ensures db.Valid()
    ensures db.Contents() == old(db.Contents()) - ToSet(keys)
    ensures count + |db.Contents()| == |old(db.Contents())|
    ensures count > 0 <==> exists k <- keys :: k in old(db.Contents())
  {
    hide Db.Valid, Db.Contents, ToSet, Meets;
    count := 0;
    var i := 0;
    ghost var m := db.Contents();
    NoneTaken(m, keys);
    while i < |keys|
      invariant 0 <= i <= |keys|
      invariant db.Valid()
      invariant db.Contents() == m - ToSet(keys[..i])
      invariant count + |db.Contents()| == |m|
      invariant count > 0 <==> Meets(m, ToSet(keys[..i]))
    {
      OneMoreKey(keys, i);
      MinusMinus(m, ToSet(keys[..i]), keys[i]);
      RemovedSize(db.Contents(), keys[i]);
      MeetsStep(m, ToSet(keys[..i]), keys[i]);
      var gone := db.Del(keys[i]);
      if gone {
        count := count + 1;
      }
      i := i + 1;
    }
    assert keys[..i] == keys;
    AllTaken(m, keys);
  }

  lemma NoneTaken(m: Shard, keys: seq<bytes>)
    ensures m - ToSet(keys[..0]) == m && !Meets(m, ToSet(keys[..0]))
  {
  }

  lemma AllTaken(m: Shard, keys: seq<bytes>)
    ensures Meets(m, ToSet(keys)) <==> exists k <- keys :: k in m
  {
  }

  /** Some key in `names` is present. */
  ghost predicate Meets(m: Shard, names: set<bytes>) {
    exists k :: k in names && k in m
  }

  lemma MeetsStep(m: Shard, names: set<bytes>, k: bytes)
    ensures Meets(m, names + {k}) <==> Meets(m, names) || k in m - names
  {
    if k in m {
      assert k in names + {k} && k in m;
    }
    if Meets(m, names) {
      var j :| j in names && j in m;
      assert j in names + {k} && j in m;
    }
  }

  lemma OneMoreKey(keys: seq<bytes>, i: nat)
    requires i < |keys|
    ensures ToSet(keys[..i + 1]) == ToSet(keys[..i]) + {keys[i]}
  {
  }
}
