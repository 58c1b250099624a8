/** When sampled eviction is least-recently-used eviction. The scan looks at five
    entries of each shard, whichever the map yields first; this module proves for
    exactly which stores every choice gives the same answer as a full scan. */
module Eviction {
  import opened Bytes
  import opened Storage

  /** Whatever the maps yield, the victim is a least recently used entry. */
  ghost predicate AlwaysLeast(shards: seq<Shard>) {
    forall v, samples :: CanBeVictim(v, samples, shards) ==> LeastIn(shards, v.idx, v.key)
  }

  /** n different elements of a set. */
  lemma {:induction false} Choose(names: set<bytes>, n: nat) returns (s: seq<bytes>)
    requires n <= |names|
    ensures |s| == n && (forall i :: 0 <= i < n ==> s[i] in names)
    ensures forall i, j :: 0 <= i < j < n ==> s[i] != s[j]
    ensures n == |names| ==> forall k <- names :: k in s
    decreases n
  {
    s := [];
    if n > 0 {
      var k :| k in names;
      var rest := Choose(names - {k}, n - 1);
      s := [k] + rest;
    }
  }

  lemma SameSize(a: set<bytes>, b: set<bytes>)
    requires a <= b && |a| >= |b|
    ensures a == b
  {
    if k :| k in b && k !in a {
      assert a <= b - {k};
      Fits(a, b - {k});
      assert false;
    }
  }

  lemma {:induction false} Fits(a: set<bytes>, b: set<bytes>)
    requires a <= b
    ensures |a| <= |b|
  {
    if k :| k in a {
      Fits(a - {k}, b - {k});
    }
  }

  /** A shard that is not sure has a sample without any least entry. */
  lemma BadSample(shards: seq<Shard>, i: nat) returns (s: seq<bytes>)
    requires i < |shards| && !SureShard(shards, i)
    ensures SampleOf(s, shards[i], 5) && forall k <- s :: !LeastIn(shards, i, k)
  {
    var m, young := shards[i], Younger(shards, i);
    assert young <= m.Keys && |m.Keys| == |m|;
    if |young| < 5 {
      assert young == m.Keys;
    }
    var n := if |m| <= 5 then |m| else 5;
    s := Choose(young, n);
    if |m| <= 5 {
      SameSize(young, m.Keys);
    }
  }

  lemma {:induction false} BadSamples(shards: seq<Shard>, n: nat) returns (samples: seq<seq<bytes>>)
    requires n <= |shards| && forall i: nat :: i < |shards| ==> !SureShard(shards, i)
    ensures |samples| == n
    ensures forall i :: 0 <= i < n ==>
              SampleOf(samples[i], shards[i], 5) && forall k <- samples[i] :: !LeastIn(shards, i, k)
    decreases n
  {
    hide SampleOf, SureShard, LeastIn;
    samples := [];
    if n > 0 {
      samples := BadSamples(shards, n - 1);
      var s := BadSample(shards, n - 1);
      samples := samples + [s];
    }
  }

  lemma {:induction false} ScanOne(v0: Option<Victim>, done: seq<seq<bytes>>, part: seq<bytes>, shards: seq<Shard>)
    returns (v: Option<Victim>)
    requires |done| < |shards| && Oldest(v0, done, shards)
    requires forall k <- part :: k in shards[|done|]
    ensures Oldest(v, done + [part], shards)
    decreases |part|
  {
    if part == [] {
      v := v0;
      assert forall i :: 0 <= i < |done| ==> (done + [part])[i] == done[i];
    } else {
      hide Oldest;
      var n := |part| - 1;
      v := ScanOne(v0, done, part[..n], shards);
      OldestStep(v, done, part[..n], part[n], shards);
      assert part[..n] + [part[n]] == part;
      var ts := shards[|done|][part[n]].lastAccessed;
      v := if v.None? || ts < v.value.seen then Some(Victim(|done|, part[n], ts)) else v;
    }
  }

  /** A scan finds something among any samples. */
  lemma {:induction false} Scan(samples: seq<seq<bytes>>, shards: seq<Shard>) returns (v: Option<Victim>)
    requires |samples| <= |shards|
    requires forall i, k :: 0 <= i < |samples| && k in samples[i] ==> k in shards[i]
    ensures Oldest(v, samples, shards)
    decreases |samples|
  {
    v := None;
    if samples != [] {
      var n := |samples| - 1;
      v := Scan(samples[..n], shards);
      v := ScanOne(v, samples[..n], samples[n], shards);
      assert samples[..n] + [samples[n]] == samples;
    }
  }

  /** Sampled eviction, exactly. On a store that holds anything, every choice of
      samples gives a least recently used victim if and only if some shard holds
      such an entry together with fewer than five others. */
  lemma EvictsLeastExactly(shards: seq<Shard>)
    requires exists i :: 0 <= i < |shards| && shards[i] != map[]
    ensures AlwaysLeast(shards) <==> exists i: nat :: SureShard(shards, i)
  {
    hide SureShard, LeastIn, CanBeVictim;
    if i: nat :| SureShard(shards, i) {
      forall v, samples | CanBeVictim(v, samples, shards) ensures LeastIn(shards, v.idx, v.key) {
        SureVictim(v, samples, shards, i);
      }
    } else {
      var samples := BadSamples(shards, |shards|);
      var v := BadVictim(samples, shards);
      assert CanBeVictim(v, samples, shards);
    }
  }

  lemma BadVictim(samples: seq<seq<bytes>>, shards: seq<Shard>) returns (v: Victim)
    requires |samples| == |shards| && exists i :: 0 <= i < |shards| && shards[i] != map[]
    requires forall i :: 0 <= i < |shards| ==>
               SampleOf(samples[i], shards[i], 5) && forall k <- samples[i] :: !LeastIn(shards, i, k)
    ensures CanBeVictim(v, samples, shards) && !LeastIn(shards, v.idx, v.key)
  {
    hide LeastIn;
    var i :| 0 <= i < |shards| && shards[i] != map[];
    assert |samples[i]| > 0;
    var found := Scan(samples, shards);
    v := found.value;
  }

  /** The same for a database, in terms of its contents. */
  lemma DbEvictsLeastExactly(db: Db)
    requires db.Valid() && db.Contents() != map[]
    ensures (forall v, samples :: CanBeVictim(v, samples, db.shards) ==> IsLeast(v.key, db.Contents()))
       <==> exists i: nat :: SureShard(db.shards, i)
  {
    hide SureShard, LeastIn, Merge, PowerOfTwo, BitAnd, Sum, IsLeast;
    var k :| k in db.Contents();
    db.InRange(k);
    EvictsLeastExactly(db.shards);
    forall v, samples | CanBeVictim(v, samples, db.shards)
      ensures LeastIn(db.shards, v.idx, v.key) <==> IsLeast(v.key, db.Contents())
    {
      db.LeastIsGlobal(v.idx, v.key);
    }
  }

  // ------------------------------------------------------- a younger victim

  function Used(at: nat): Entry {
    NewEntry(1, [], None, at)
  }

  /** One entry used at t, and five used after it. */
  function SixKeys(t: nat): Shard {
    map["a" := Used(t), "b" := Used(t + 1), "c" := Used(t + 1), "d" := Used(t + 1),
        "e" := Used(t + 1), "f" := Used(t + 1)]
  }

  /** A store whose oldest entry survives while a younger one is evicted. */
  lemma YoungerEvicted(t: nat)
    ensures CanBeVictim(Victim(0, "b", t + 1), [["b", "c", "d", "e", "f"]], [SixKeys(t)])
    ensures SixKeys(t)["a"].lastAccessed < SixKeys(t)["b"].lastAccessed
    ensures !AlwaysLeast([SixKeys(t)])
  {
    hide SixKeys;
    SixUsed(t);
    FiveSampled(t);
    var m, sample: seq<bytes> := SixKeys(t), ["b", "c", "d", "e", "f"];
    OneShard(m, sample, "b", t + 1);
    assert !LeastIn([m], 0, "b");
  }

  /** A store of one shard, and a sample of entries used at the same moment. */
  lemma OneShard(m: Shard, sample: seq<bytes>, key: bytes, at: nat)
    requires SampleOf(sample, m, 5) && key in sample
    requires forall k <- sample :: k in m && m[k].lastAccessed == at
    ensures CanBeVictim(Victim(0, key, at), [sample], [m])
  {
    hide SampleOf;
  }

  lemma SixUsed(t: nat)
    ensures var m := SixKeys(t);
            && "a" in m && m["a"].lastAccessed == t
            && forall k <- ["b", "c", "d", "e", "f"] :: k in m && m[k].lastAccessed == t + 1
  {
  }

  lemma FiveSampled(t: nat)
    ensures SampleOf(["b", "c", "d", "e", "f"], SixKeys(t), 5)
  {
    hide SixKeys;
    SixDistinct(t);
    SixUsed(t);
  }

  lemma SixDistinct(t: nat)
    ensures |SixKeys(t)| == 6
  {
    var names: set<bytes> := {"a", "b", "c", "d", "e", "f"};
    assert SixKeys(t).Keys == names;
  }
}
