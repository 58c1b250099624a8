/** Least recently used, told from the operations. The object keeps, beside the
    database, when each key was last set or read; with few entries in every shard
    an eviction follows that history. */
module Recency {
  import opened Bytes
  import opened Store
  import opened Storage

  /** Every stored key has been used, and its entry says when. */
  ghost predicate Tracks(lastUse: map<bytes, nat>, m: Shard) {
    forall k <- m :: k in lastUse && m[k].lastAccessed == lastUse[k]
  }

  /** No key that is gone was used later than a key that is kept. */
  ghost predicate LeastUsedGone(lastUse: map<bytes, nat>, kept: Shard, m: Shard) {
    forall k <- m, s <- kept :: k !in kept ==> k in lastUse && s in lastUse && lastUse[k] <= lastUse[s]
  }

  class TrackedDb {
    const db: Db
    ghost var lastUse: map<bytes, nat>

    ghost predicate Valid()
      reads this, db
    {
      db.Valid() && Tracks(lastUse, db.Contents())
    }

    constructor (shardCount: nat, maxMemory: nat, hash: bytes -> nat)
      ensures Valid() && fresh(db) && lastUse == map[] && db.Contents() == map[]
    {
      db := new Db(shardCount, maxMemory, hash);
      lastUse := map[];
      new;
      hide Merge, PowerOfTwo, BitAnd, Sum;
    }

    /** A SET counts as a use. What it evicts was used no later than anything it
        keeps, and only if the limit leaves no choice. */
    method Set(key: bytes, value: bytes, expiresAt: Option<nat>, now: nat) returns (ghost kept: Shard)
      requires Valid()
      modifies this, db`shards, db`used
      ensures Valid() && lastUse == old(lastUse)[key := now]
      ensures key in db.Contents() && db.Contents()[key].value == value && kept.Keys + {key} == db.Contents().Keys
      ensures kept == old(db.Contents()) <==> db.maxMemory == 0 || old(Sum(db.Contents())) < db.maxMemory
      ensures AllSmall(old(db.shards)) ==> LeastUsedGone(old(lastUse), kept, old(db.Contents()))
    {
      hide Merge, PowerOfTwo, BitAnd, Sum, Db.Valid, Db.Contents, AllSmall;
      kept := db.Set(key, value, expiresAt, now);
      RoomLeft(kept, old(db.Contents()), db.maxMemory);
      lastUse := lastUse[key := now];
    }

    /** So does a GET that finds the key. */
    method Get(key: bytes, now: nat, later: nat) returns (r: Option<bytes>)
      requires Valid() && now <= later
      modifies this, db`shards, db`used
      ensures Valid() && lastUse == if r.Some? then old(lastUse)[key := later] else old(lastUse)
      ensures r.Some? <==> key in LiveView(View(old(db.Contents())), now)
    {
      hide Merge, PowerOfTwo, BitAnd, Sum, Db.Valid, Db.Contents, AllSmall;
      r := db.Get(key, now, later);
      if r.Some? {
        lastUse := lastUse[key := later];
      }
    }

    method Del(key: bytes) returns (r: bool)
      requires Valid()
      modifies db`shards, db`used
      ensures Valid() && db.Contents() == old(db.Contents()) - {key}
    {
      hide Merge, PowerOfTwo, BitAnd, Sum, Db.Valid, Db.Contents, AllSmall;
      r := db.Del(key);
    }

    method Purge(sample: nat, now: nat) returns (purged: nat)
      requires Valid()
      modifies db`shards, db`used
      ensures Valid() && |db.Contents()| + purged == |old(db.Contents())|
    {
      hide Merge, PowerOfTwo, BitAnd, Sum, Db.Valid, Db.Contents, AllSmall, Swept, Trimmed;
      ghost var samples: seq<seq<bytes>>;
      purged, samples := db.PurgeExpiredSample(sample, now);
    }
  }
}
