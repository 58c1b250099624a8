/** The locked sections of the database object, in any order and by any number of
    clients and purgers. The object carries the interleaving it has been through,
    so the counter theorem holds of its counter and its entries. */
module Sections {
  import opened Bytes
  import opened Store
  import opened Storage
  import opened Interleaving

  lemma OneMore(run: seq<Step>, s: Shared, drift: int, a: Step)
    requires Reaches(run, s, drift) && Enabled(s, a)
    ensures Reaches(run + [a], Do(s, a), drift + DriftOf(s, a))
  {
    hide Do, Drift, Enabled;
    assert (run + [a])[..|run|] == run;
  }

  lemma {:induction false} PurgeDiscounts(s: Shared, found: Sampled)
    ensures PurgeAll(s, found).used == s.used - Discount(s.entries, found)
    ensures PurgeAll(s, found).samples == s.samples
    decreases |found|
  {
    if found != [] {
      var k := found[0].0;
      if k in s.entries {
        PurgeDiscounts(s.(entries := s.entries - {k}, used := s.used - found[0].1), found[1..]);
      } else {
        assert s.entries - {k} == s.entries;
        PurgeDiscounts(s, found[1..]);
      }
    }
  }

  lemma PurgeStep(run: seq<Step>, s: Shared, drift: int, who: nat)
    requires who in s.samples && Reaches(run, s, drift)
    ensures var found, t := s.samples[who], Do(s, Step.Purge(who));
            && t.entries == s.entries - NamesOf(found) && t.used == s.used - Discount(s.entries, found)
            && Reaches(run + [Step.Purge(who)], t, drift + Drift(s.entries, found))
  {
    hide PurgeAll, Discount, NamesOf, Drift, Reaches;
    PurgeDiscounts(s.(samples := s.samples - {who}), s.samples[who]);
    PurgeRemovesSampled(s.(samples := s.samples - {who}), s.samples[who]);
    OneMore(run, s, drift, Step.Purge(who));
  }

  class SharedDb {
    const db: Db
    /** What purgers remember, and the interleaving so far. */
    ghost var samples: map<nat, Sampled>
    ghost var run: seq<Step>
    ghost var drift: int

    ghost function Now(): Shared
      reads this, db
    {
      Shared(db.Contents(), db.used, samples)
    }

    ghost predicate Valid()
      reads this, db
    {
      db.Shaped() && Reaches(run, Now(), drift)
    }

    constructor (shardCount: nat, maxMemory: nat, hash: bytes -> nat)
      ensures Valid() && fresh(db) && Now() == Empty && drift == 0
    {
      db := new Db(shardCount, maxMemory, hash);
      samples, run, drift := map[], [], 0;
      new;
      hide Merge, PowerOfTwo, BitAnd, Sum;
    }

    /** The first section of `get`. */
    method Touch(key: bytes, now: nat) returns (r: Option<bytes>)
      requires Valid()
      modifies this, db`shards, db`used
      ensures Valid() && Now() == Do(old(Now()), Step.Touch(key, now))
      ensures drift == old(drift)
      ensures r == if key in LiveView(View(old(db.Contents())), now) then Some(old(db.Contents())[key].value) else None
    {
      hide Merge, PowerOfTwo, BitAnd, Sum, Reaches, Db.Contents;
      OneMore(run, Now(), drift, Step.Touch(key, now));
      db.InRange(key);
      var idx := db.ShardIndex(key);
      r := None;
      if key in db.shards[idx] && !Expired(db.shards[idx][key], now) {
        var e := db.shards[idx][key];
        db.InsertEntry(key, e.(lastAccessed := now));
        r := Some(e.value);
      }
      run := run + [Step.Touch(key, now)];
    }

    /** The second section of `get`. */
    method LazyRemove(key: bytes, now: nat)
      requires Valid()
      modifies this, db`shards, db`used
      ensures Valid() && Now() == Do(old(Now()), Step.LazyRemove(key, now))
      ensures drift == old(drift)
    {
      hide Merge, PowerOfTwo, BitAnd, Sum, Reaches, Db.Contents;
      OneMore(run, Now(), drift, Step.LazyRemove(key, now));
      db.InRange(key);
      var idx := db.ShardIndex(key);
      if key in db.shards[idx] && Expired(db.shards[idx][key], now) {
        var _ := db.RemoveEntry(idx, key);
      }
      run := run + [Step.LazyRemove(key, now)];
    }

    /** The section of `set`. */
    method Insert(key: bytes, value: bytes, expiresAt: Option<nat>, now: nat)
      requires Valid()
      modifies this, db`shards, db`used
      ensures Valid() && Now() == Do(old(Now()), Step.Insert(key, NewEntry(|key|, value, expiresAt, now)))
      ensures drift == old(drift)
    {
      hide Merge, PowerOfTwo, BitAnd, Sum, Reaches, Db.Contents, Db.Shaped;
      var e := NewEntry(|key|, value, expiresAt, now);
      OneMore(run, Now(), drift, Step.Insert(key, e));
      db.InsertEntry(key, e);
      run := run + [Step.Insert(key, e)];
    }

    /** The section of `del`, and the write section of an eviction. */
    method Remove(key: bytes) returns (r: bool)
      requires Valid()
      modifies this, db`shards, db`used
      ensures Valid() && Now() == Do(old(Now()), Step.Remove(key))
      ensures drift == old(drift) && (r <==> key in old(db.Contents()))
    {
      hide Merge, PowerOfTwo, BitAnd, Sum, Reaches, Db.Contents, Db.Shaped;
      OneMore(run, Now(), drift, Step.Remove(key));
      assert key !in db.Contents() ==> db.Contents() - {key} == db.Contents();
      var idx := db.ShardIndex(key);
      var removed := db.RemoveEntry(idx, key);
      r := removed.Some?;
      run := run + [Step.Remove(key)];
    }

    /** The read section of a purge. */
    method Sample(ghost who: nat, idx: nat, n: nat, now: nat) returns (found: Sampled, ghost taken: seq<bytes>)
      requires Valid() && idx < |db.shards|
      modifies this
      ensures Valid() && Now() == Do(old(Now()), Step.Sample(who, found, now))
      ensures drift == old(drift) && who in samples && samples[who] == found
      ensures forall p <- found :: Index(db.hash, db.mask, p.0) == idx
      ensures SampleOf(taken, db.shards[idx], n) && NamesOf(found) == Doomed(taken, db.shards[idx], now)
    {
      hide Merge, PowerOfTwo, BitAnd, Sum, Reaches, Db.Contents;
      found, taken := db.SampleExpired(idx, n, now);
      db.FreshEverywhere(idx, found);
      forall p <- found ensures Expired(db.Contents()[p.0], now) {
        db.InRange(p.0);
        assert p.0 in NamesOf(found);
      }
      OneMore(run, Now(), drift, Step.Sample(who, found, now));
      run := run + [Step.Sample(who, found, now)];
      samples := samples[who := found];
    }

    /** The write section of a purge, any time after its read section. */
    method Purge(ghost who: nat, idx: nat, found: Sampled) returns (purged: nat)
      requires Valid() && idx < |db.shards| && who in samples && samples[who] == found
      requires forall p <- found :: Index(db.hash, db.mask, p.0) == idx
      modifies this, db`shards, db`used
      ensures Valid() && Now() == Do(old(Now()), Step.Purge(who))
      ensures drift == old(drift) + Drift(old(db.Contents()), found)
    {
      hide Merge, PowerOfTwo, BitAnd, Sum, Reaches, Db.Contents, Db.Shaped, Do, Discount, NamesOf, Drift, Index, Fresh,
        Db.Valid;
      ghost var s := Now();
      purged := db.RemoveSampled(idx, found);
      Record(who, s);
    }

    ghost method Record(who: nat, s: Shared)
      requires db.Shaped() && Reaches(run, s, drift) && s.samples == samples && who in samples
      requires db.Contents() == s.entries - NamesOf(samples[who])
      requires db.used == s.used - Discount(s.entries, samples[who])
      modifies this
      ensures Valid() && Now() == Do(s, Step.Purge(who))
      ensures drift == old(drift) + Drift(s.entries, s.samples[who])
    {
      hide Reaches, Db.Contents, Db.Shaped, Do, Discount, NamesOf, Drift;
      PurgeStep(run, s, drift, who);
      run, drift := run + [Step.Purge(who)], drift + Drift(s.entries, samples[who]);
      samples := Do(s, Step.Purge(who)).samples;
    }

    /** After any interleaving of these, the counter of the database is the sum of
        its entries plus the drift of the purges. */
    lemma Counter()
      requires Valid()
      ensures db.used == Sum(db.Contents()) + drift
      ensures db.Valid() <==> drift == 0
    {
      hide Merge, PowerOfTwo, BitAnd, Sum, Reaches, Db.Contents, Db.Shaped;
      CounterIsExactUpToDrift(run, Now(), drift);
    }
  }
}
