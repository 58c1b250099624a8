/** The sharded store: a vector of maps behind a hash, a byte counter, lazy and
    sampled expiry, and sampled LRU eviction. */
module Storage {
  import opened Bytes
  import opened Store

  /** `size_of::<Entry>()` on a 64-bit target; only its being positive matters. */
  const ENTRY_BYTES: nat := 72

  datatype Entry = Entry(value: bytes, expiresAt: Option<nat>, lastAccessed: nat, size: nat)

  type Shard = map<bytes, Entry>

  function NewEntry(keyLen: nat, value: bytes, expiresAt: Option<nat>, now: nat): Entry {
    Entry(value, expiresAt, now, keyLen + |value| + ENTRY_BYTES)
  }

  predicate Expired(e: Entry, now: nat) {
    e.expiresAt.Some? && now >= e.expiresAt.value
  }

  /** What a client sees of an entry. */
  function Seen(e: Entry): Timed {
    Timed(e.value, e.expiresAt)
  }

  function View(m: Shard): Table {
    map k | k in m :: Seen(m[k])
  }

  // -------------------------------------------------------------- bit masks

  predicate PowerOfTwo(n: nat) {
    n == 1 || (n > 1 && n % 2 == 0 && PowerOfTwo(n / 2))
  }

  function BitAnd(a: nat, b: nat): nat {
    if a == 0 || b == 0 then 0
    else 2 * BitAnd(a / 2, b / 2) + (if a % 2 == 1 && b % 2 == 1 then 1 else 0)
  }

  lemma ModByDoubling(h: nat, m: nat)
    requires m > 0
    ensures h % (2 * m) == 2 * (h / 2 % m) + h % 2
  {
    var q, r := h / 2 / m, h / 2 % m;
    assert h / 2 == m * q + r;
    assert h == (2 * m) * q + (2 * r + h % 2);
    ModUnique(h, 2 * m, q, 2 * r + h % 2);
  }

  lemma {:induction false} AtLeastOnce(n: nat, d: nat)
    requires d >= 1
    ensures n * d >= n
  {
    if d > 1 {
      AtLeastOnce(n, d - 1);
      assert n * d == n * (d - 1) + n;
    }
  }

  lemma ModUnique(h: nat, n: nat, q: nat, r: nat)
    requires n > 0 && h == n * q + r && r < n
    ensures h % n == r
  {
    var k, m := h / n, h % n;
    assert h == n * k + m && 0 <= m < n;
    if k > q {
      AtLeastOnce(n, k - q);
    } else if k < q {
      AtLeastOnce(n, q - k);
    }
  }

  /** `hash & (count - 1)` is `hash mod count` when count is a power of two. */
  lemma {:induction false} MaskIsMod(h: nat, n: nat)
    requires PowerOfTwo(n)
    ensures BitAnd(h, n - 1) == h % n
    decreases n
  {
    if n > 1 {
      MaskIsMod(h / 2, n / 2);
      ModByDoubling(h, n / 2);
    }
  }

  /** `next_power_of_two`, from a power of two that is not yet too large. */
  function NextPowerOfTwo(n: nat, p: nat): (r: nat)
    requires PowerOfTwo(p) && (p == 1 || p / 2 < n)
    ensures PowerOfTwo(r) && n <= r && (r == 1 || r / 2 < n)
    decreases n - p
  {
    if n <= p then p else NextPowerOfTwo(n, 2 * p)
  }

  // ------------------------------------------------------- shards as one map

  function Index(hash: bytes -> nat, mask: nat, key: bytes): nat {
    BitAnd(hash(key), mask)
  }

  ghost function AllKeys(shards: seq<Shard>): set<bytes> {
    set i, k | 0 <= i < |shards| && k in shards[i] :: k
  }

  /** All shards as one map, each key looked up where its hash points. */
  ghost function Merge(shards: seq<Shard>, hash: bytes -> nat, mask: nat): Shard {
    map k | k in AllKeys(shards) && Index(hash, mask, k) < |shards| && k in shards[Index(hash, mask, k)]
      :: shards[Index(hash, mask, k)][k]
  }

  lemma MergeLookup(shards: seq<Shard>, hash: bytes -> nat, mask: nat, key: bytes)
    requires Index(hash, mask, key) < |shards|
    ensures var i := Index(hash, mask, key);
            && (key in Merge(shards, hash, mask) <==> key in shards[i])
            && (key in shards[i] ==> Merge(shards, hash, mask)[key] == shards[i][key])
  {
  }

  lemma MergeInsert(shards: seq<Shard>, hash: bytes -> nat, mask: nat, key: bytes, e: Entry)
    requires Index(hash, mask, key) < |shards|
    ensures var i := Index(hash, mask, key);
            Merge(shards[i := shards[i][key := e]], hash, mask) == Merge(shards, hash, mask)[key := e]
  {
    hide BitAnd;
    var i := Index(hash, mask, key);
    var after := shards[i := shards[i][key := e]];
    forall k ensures k in Merge(after, hash, mask) <==> k in Merge(shards, hash, mask)[key := e] {
      if Index(hash, mask, k) < |shards| {
        MergeLookup(shards, hash, mask, k);
        MergeLookup(after, hash, mask, k);
      }
    }
  }

  lemma MergeRemove(shards: seq<Shard>, hash: bytes -> nat, mask: nat, key: bytes)
    requires Index(hash, mask, key) < |shards|
    ensures var i := Index(hash, mask, key);
            Merge(shards[i := shards[i] - {key}], hash, mask) == Merge(shards, hash, mask) - {key}
  {
    hide BitAnd;
    var i := Index(hash, mask, key);
    var after := shards[i := shards[i] - {key}];
    forall k ensures k in Merge(after, hash, mask) <==> k in Merge(shards, hash, mask) - {key} {
      if Index(hash, mask, k) < |shards| {
        MergeLookup(shards, hash, mask, k);
        MergeLookup(after, hash, mask, k);
      }
    }
  }

  // --------------------------------------------------------- byte accounting

  /** Sum of the recorded sizes of all entries. */
  ghost function Sum(m: Shard): nat {
    if m == map[] then 0 else
    var k :| k in m;
    m[k].size + Sum(m - {k})
  }

  lemma {:induction false} SumRemove(m: Shard, key: bytes)
    requires key in m
    ensures Sum(m) == m[key].size + Sum(m - {key})
    decreases |m|
  {
    var k :| k in m && Sum(m) == m[k].size + Sum(m - {k});
    if k != key {
      SumRemove(m - {k}, key);
      SumRemove(m - {key}, k);
      assert m - {k} - {key} == m - {key} - {k};
    }
  }

  lemma SumInsert(m: Shard, key: bytes, e: Entry)
    ensures Sum(m[key := e]) == e.size + Sum(m - {key})
  {
    SumRemove(m[key := e], key);
    assert m[key := e] - {key} == m - {key};
  }

  lemma RemovedSize(m: Shard, k: bytes)
    ensures |m| == |m - {k}| + (if k in m then 1 else 0)
  {
    if k in m {
      assert m == (m - {k})[k := m[k]];
    } else {
      assert m - {k} == m;
    }
  }

  // --------------------------------------------------------- iteration order

  /** The keys of a map, each once, in some order. */
  ghost predicate Enumerates(order: seq<bytes>, m: Shard) {
    && |order| == |m|
    && (forall i :: 0 <= i < |order| ==> order[i] in m)
    && (forall i, j :: 0 <= i < j < |order| ==> order[i] != order[j])
    && (forall k <- m :: k in order)
  }

  /** HashMap iteration: any order may come out. */
  method Iterate(m: Shard) returns (order: seq<bytes>)
    ensures Enumerates(order, m)
  {
    order := [];
    var rest := m.Keys;
    while rest != {}
      invariant |order| + |rest| == |m| && rest <= m.Keys
      invariant forall i :: 0 <= i < |order| ==> order[i] in m && order[i] !in rest
      invariant forall i, j :: 0 <= i < j < |order| ==> order[i] != order[j]
      invariant forall k <- m :: k in order || k in rest
      decreases |rest|
    {
      var k :| k in rest;
      rest := rest - {k};
      order := order + [k];
    }
    assert |m.Keys| == |m|;
  }

  /** `take(n)` of an iteration. */
  function Take(order: seq<bytes>, n: nat): seq<bytes> {
    if |order| <= n then order else order[..n]
  }

  /** A `take(n)` sample of a shard: the whole shard when it is small enough. */
  ghost predicate SampleOf(s: seq<bytes>, m: Shard, n: nat) {
    && |s| == (if |m| <= n then |m| else n)
    && (forall i :: 0 <= i < |s| ==> s[i] in m)
    && (forall i, j :: 0 <= i < j < |s| ==> s[i] != s[j])
    && (|m| <= n ==> forall k <- m :: k in s)
  }

  datatype Victim = Victim(idx: nat, key: bytes, seen: nat)

  /** v is a least recently used entry among the sampled ones. */
  ghost predicate Oldest(v: Option<Victim>, samples: seq<seq<bytes>>, shards: seq<Shard>) {
    && |samples| <= |shards|
    && (forall i, k :: 0 <= i < |samples| && k in samples[i] ==> k in shards[i])
    && match v
       case None => forall i :: 0 <= i < |samples| ==> samples[i] == []
       case Some(Victim(idx, key, seen)) =>
         && idx < |samples| && key in samples[idx] && seen == shards[idx][key].lastAccessed
         && forall i, k :: 0 <= i < |samples| && k in samples[i] ==> seen <= shards[i][k].lastAccessed
  }

  /** One more sampled key, taken when it is strictly older. */
  lemma OldestStep(v: Option<Victim>, done: seq<seq<bytes>>, part: seq<bytes>, k: bytes, shards: seq<Shard>)
    requires |done| < |shards| && Oldest(v, done + [part], shards) && k in shards[|done|]
    ensures var ts := shards[|done|][k].lastAccessed;
            Oldest(if v.None? || ts < v.value.seen then Some(Victim(|done|, k, ts)) else v,
                   done + [part + [k]], shards)
  {
    var i := |done|;
    var before, after := done + [part], done + [part + [k]];
    assert forall x :: x in after[i] <==> x in before[i] || x == k;
    assert forall j :: 0 <= j < i ==> after[j] == before[j];
  }

  /** Every shard lists a sample, and v is the victim found among them. */
  ghost predicate CanBeVictim(v: Victim, samples: seq<seq<bytes>>, shards: seq<Shard>) {
    && |samples| == |shards|
    && (forall i :: 0 <= i < |shards| ==> SampleOf(samples[i], shards[i], 5))
    && Oldest(Some(v), samples, shards)
  }

  /** No entry of any shard was used before this one. */
  ghost predicate LeastIn(shards: seq<Shard>, i: int, k: bytes) {
    && 0 <= i < |shards| && k in shards[i]
    && forall j, x :: 0 <= j < |shards| && x in shards[j] ==>
         shards[i][k].lastAccessed <= shards[j][x].lastAccessed
  }

  ghost function Younger(shards: seq<Shard>, i: nat): set<bytes>
    requires i < |shards|
  {
    set k | k in shards[i] && !LeastIn(shards, i, k)
  }

  /** Shard i holds a least recently used entry and too few others to fill a
      sample without it. */
  ghost predicate SureShard(shards: seq<Shard>, i: nat) {
    i < |shards| && (exists k :: LeastIn(shards, i, k)) && |Younger(shards, i)| < 5
  }

  lemma {:induction false} DistinctFit(s: seq<bytes>, names: set<bytes>)
    requires (forall i :: 0 <= i < |s| ==> s[i] in names)
    requires (forall i, j :: 0 <= i < j < |s| ==> s[i] != s[j])
    ensures |s| <= |names|
    decreases |s|
  {
    if s != [] {
      DistinctFit(s[1..], names - {s[0]});
    }
  }

  /** A sure shard always gives the least recently used entry away. */
  lemma SureVictim(v: Victim, samples: seq<seq<bytes>>, shards: seq<Shard>, i: nat)
    requires CanBeVictim(v, samples, shards) && SureShard(shards, i)
    ensures LeastIn(shards, v.idx, v.key)
  {
    var least :| LeastIn(shards, i, least);
    if forall k <- samples[i] :: k in Younger(shards, i) {
      assert least !in samples[i];
      DistinctFit(samples[i], Younger(shards, i));
      assert false;
    }
    var k :| k in samples[i] && LeastIn(shards, i, k);
  }

  class Db {
    const hash: bytes -> nat
    const mask: nat
    const maxMemory: nat
    var shards: seq<Shard>
    var used: int

    /** Every key is in its shard, and every entry records its size. */
    ghost predicate Shaped()
      reads this
    {
      && PowerOfTwo(|shards|) && mask + 1 == |shards|
      && (forall i, k :: 0 <= i < |shards| && k in shards[i] ==> Index(hash, mask, k) == i)
      && (forall i, k :: 0 <= i < |shards| && k in shards[i] ==>
            shards[i][k].size == |k| + |shards[i][k].value| + ENTRY_BYTES)
    }

    /** And the counter is exact, as it is when operations do not overlap. */
    ghost predicate Valid()
      reads this
    {
      Shaped() && used == Sum(Contents())
    }

    /** The store as one map. */
    ghost function Contents(): Shard
      reads this
    {
      Merge(shards, hash, mask)
    }

    /** `with_config`. */
    constructor (shardCount: nat, maxMemory: nat, hash: bytes -> nat)
      ensures Valid() && Contents() == map[] && used == 0
      ensures |shards| >= shardCount && (|shards| == 1 || |shards| / 2 < shardCount)
      ensures this.maxMemory == maxMemory && this.hash == hash
    {
      var count := NextPowerOfTwo(if shardCount == 0 then 1 else shardCount, 1);
      this.shards := seq(count, _ => map[]);
      this.mask := count - 1;
      this.maxMemory := maxMemory;
      this.hash := hash;
      this.used := 0;
    }

    method ShardIndex(key: bytes) returns (i: nat)
      requires Shaped()
      ensures i == Index(hash, mask, key) == hash(key) % |shards|
      ensures i < |shards|
    {
      MaskIsMod(hash(key), |shards|);
      i := BitAnd(hash(key), mask);
    }

    /** Every key has a shard. */
    lemma InRange(key: bytes)
      requires Shaped()
      ensures Index(hash, mask, key) < |shards|
      ensures key in Contents() <==> key in shards[Index(hash, mask, key)]
      ensures key in Contents() ==> Contents()[key] == shards[Index(hash, mask, key)][key]
    {
      hide BitAnd;
      MaskIsMod(hash(key), |shards|);
      MergeLookup(shards, hash, mask, key);
    }

    // ------------------------------------------------ one locked section each

    method InsertEntry(key: bytes, e: Entry)
      requires Shaped() && e.size == |key| + |e.value| + ENTRY_BYTES
      modifies `shards, `used
      ensures Shaped() && |shards| == |old(shards)|
      ensures Contents() == old(Contents())[key := e]
      ensures used == old(used) - old(SizeAt(Contents(), key)) + e.size
      ensures old(Valid()) ==> Valid()
    {
      hide PowerOfTwo, BitAnd, Sum, Merge;
      InRange(key);
      var idx := ShardIndex(key);
      MergeInsert(shards, hash, mask, key, e);
      SumInsert(Contents(), key, e);
      if key in shards[idx] {
        SumRemove(Contents(), key);
        used := used - shards[idx][key].size;
      } else {
        assert Contents() - {key} == Contents();
      }
      shards := shards[idx := shards[idx][key := e]];
      used := used + e.size;
    }

    /** Take an entry out of its shard, without the counter. */
    method TakeOut(idx: nat, key: bytes) returns (removed: Option<Entry>)
      requires Shaped() && idx == Index(hash, mask, key)
      modifies `shards
      ensures Shaped() && |shards| == |old(shards)|
      ensures idx < |shards| && shards == old(shards)[idx := old(shards)[idx] - {key}]
      ensures Contents() == old(Contents()) - {key}
      ensures removed == if key in old(Contents()) then Some(old(Contents())[key]) else None
    {
      hide PowerOfTwo, BitAnd, Sum, Merge;
      InRange(key);
      MergeRemove(shards, hash, mask, key);
      removed := if key in shards[idx] then Some(shards[idx][key]) else None;
      shards := shards[idx := shards[idx] - {key}];
    }

    method RemoveEntry(idx: nat, key: bytes) returns (removed: Option<Entry>)
      requires Shaped() && idx == Index(hash, mask, key)
      modifies `shards, `used
      ensures Shaped() && |shards| == |old(shards)|
      ensures idx < |shards| && shards == old(shards)[idx := old(shards)[idx] - {key}]
      ensures Contents() == old(Contents()) - {key}
      ensures removed == if key in old(Contents()) then Some(old(Contents())[key]) else None
      ensures used == old(used) - old(SizeAt(Contents(), key))
      ensures old(Valid()) ==> Valid()
    {
      hide PowerOfTwo, BitAnd, Sum, Merge, Index;
      ghost var m := Contents();
      removed := TakeOut(idx, key);
      if removed.Some? {
        SumRemove(m, key);
        used := used - removed.value.size;
      } else {
        assert m - {key} == m;
      }
    }

    // -------------------------------------------------------- client operations

    /** `get`: the clock is read for the expiry check (now) and again for the
        access time or the second check (later). */
    method Get(key: bytes, now: nat, later: nat) returns (r: Option<bytes>)
      requires Valid() && now <= later
      modifies `shards, `used
      ensures Valid() && |shards| == |old(shards)|
      ensures var m := old(Contents());
              if key !in m then r == None && Contents() == m
              else if Expired(m[key], now) then r == None && Contents() == m - {key}
              else r == Some(m[key].value) && Contents() == m[key := m[key].(lastAccessed := later)]
      ensures Trimmed(View(Contents()), View(old(Contents())), later)
    {
      hide PowerOfTwo, BitAnd, Sum, Merge;
      InRange(key);
      var idx := ShardIndex(key);
      if key !in shards[idx] {
        return None;
      }
      var e := shards[idx][key];
      if !Expired(e, now) {
        InsertEntry(key, e.(lastAccessed := later));
        return Some(e.value);
      }
      if Expired(e, later) {
        var _ := RemoveEntry(idx, key);
      }
      r := None;
    }

    method Exists(key: bytes, now: nat, later: nat) returns (r: bool)
      requires Valid() && now <= later
      modifies `shards, `used
      ensures Valid() && |shards| == |old(shards)|
      ensures r <==> key in LiveView(View(old(Contents())), now)
      ensures Trimmed(View(Contents()), View(old(Contents())), later)
    {
      hide PowerOfTwo, BitAnd, Sum, Merge;
      var v := Get(key, now, later);
      r := v.Some?;
    }

    /** `del`: true when the key was present, expired or not. */
    method Del(key: bytes) returns (r: bool)
      requires Valid()
      modifies `shards, `used
      ensures Valid() && |shards| == |old(shards)|
      ensures Contents() == old(Contents()) - {key}
      ensures r <==> key in old(Contents())
      ensures forall t :: !r ==> key !in LiveView(View(old(Contents())), t)
    {
      hide PowerOfTwo, BitAnd, Sum, Merge;
      var idx := ShardIndex(key);
      var removed := RemoveEntry(idx, key);
      r := removed.Some?;
    }

    /** `set`: evict if a limit is set, then insert. */
    method Set(key: bytes, value: bytes, expiresAt: Option<nat>, now: nat) returns (ghost kept: Shard)
      requires Valid()
      modifies `shards, `used
      ensures Valid() && |shards| == |old(shards)|
      ensures MakesRoom(kept, old(Contents()), maxMemory)
      ensures AllSmall(old(shards)) ==> OlderGone(kept, old(Contents()))
      ensures Contents() == kept[key := Entry(value, expiresAt, now, |key| + |value| + ENTRY_BYTES)]
      ensures maxMemory > 0 ==> used < maxMemory + |key| + |value| + ENTRY_BYTES
    {
      hide PowerOfTwo, BitAnd, Merge, AllSmall;
      if maxMemory > 0 {
        EnsureMemoryCapacity();
      }
      var e := NewEntry(|key|, value, expiresAt, now);
      ghost var before := Contents();
      kept := before;
      InsertEntry(key, e);
      SumInsert(before, key, e);
      if key in before {
        SumRemove(before, key);
      } else {
        assert before - {key} == before;
      }
    }

    // ------------------------------------------------------------ LRU eviction

    /** The scan of `ensure_memory_capacity`: the first five entries of every
        shard, in whatever order the maps yield them. */
    method FindVictim() returns (v: Option<Victim>, ghost samples: seq<seq<bytes>>)
      ensures |samples| == |shards|
      ensures forall i :: 0 <= i < |shards| ==> SampleOf(samples[i], shards[i], 5)
      ensures Oldest(v, samples, shards)
    {
      v, samples := None, [];
      var idx := 0;
      while idx < |shards|
        invariant 0 <= idx <= |shards| && |samples| == idx
        invariant forall i :: 0 <= i < idx ==> SampleOf(samples[i], shards[i], 5)
        invariant Oldest(v, samples, shards)
      {
        var order := Iterate(shards[idx]);
        var sample := Take(order, 5);
        assert SampleOf(sample, shards[idx], 5);
        v := ScanShard(v, samples, idx, sample);
        samples := samples + [sample];
        idx := idx + 1;
      }
    }

    method ScanShard(v0: Option<Victim>, ghost done: seq<seq<bytes>>, idx: nat, sample: seq<bytes>)
      returns (v: Option<Victim>)
      requires idx == |done| < |shards| && Oldest(v0, done, shards)
      requires forall k <- sample :: k in shards[idx]
      ensures Oldest(v, done + [sample], shards)
    {
      v := v0;
      var j := 0;
      assert forall i :: 0 <= i < |done| ==> (done + [sample[..0]])[i] == done[i];
      while j < |sample|
        invariant 0 <= j <= |sample|
        invariant Oldest(v, done + [sample[..j]], shards)
      {
        var k := sample[j];
        OldestStep(v, done, sample[..j], k, shards);
        assert sample[..j + 1] == sample[..j] + [k];
        if v.None? || shards[idx][k].lastAccessed < v.value.seen {
          v := Some(Victim(idx, k, shards[idx][k].lastAccessed));
        }
        j := j + 1;
      }
      assert sample[..j] == sample;
    }

    /** Nothing sampled means nothing stored. */
    lemma NothingSampled(samples: seq<seq<bytes>>)
      requires Valid() && |samples| == |shards|
      requires forall i :: 0 <= i < |shards| ==> SampleOf(samples[i], shards[i], 5) && samples[i] == []
      ensures used == 0
    {
      hide PowerOfTwo, BitAnd;
      forall i | 0 <= i < |shards| ensures shards[i] == map[] {
        assert |shards[i]| == 0;
      }
      assert Contents() == map[];
    }

    /** The least recently used entries, by shard and in the whole store. */
    lemma LeastIsGlobal(idx: nat, key: bytes)
      requires Valid() && idx < |shards| && key in shards[idx]
      ensures LeastIn(shards, idx, key) <==> IsLeast(key, Contents())
    {
      hide PowerOfTwo, BitAnd, Merge, Sum;
      InRange(key);
      if LeastIn(shards, idx, key) {
        forall k <- Contents() ensures Contents()[key].lastAccessed <= Contents()[k].lastAccessed {
          InRange(k);
        }
      }
      if IsLeast(key, Contents()) {
        forall j, x | 0 <= j < |shards| && x in shards[j]
          ensures shards[idx][key].lastAccessed <= shards[j][x].lastAccessed
        {
          InRange(x);
        }
      }
    }

    /** When every shard is small enough to be sampled whole, the victim is the
        least recently used entry of the whole store. */
    lemma VictimIsGlobal(v: Victim, samples: seq<seq<bytes>>)
      requires Valid() && CanBeVictim(v, samples, shards) && AllSmall(shards)
      ensures IsLeast(v.key, Contents())
    {
      hide Valid, Contents;
      assert LeastIn(shards, v.idx, v.key);
      LeastIsGlobal(v.idx, v.key);
    }

    /** One round of the eviction loop; it always finds and removes an entry. */
    method EvictOne() returns (ok: bool, ghost key: bytes)
      requires Valid() && used >= maxMemory > 0
      modifies `shards, `used
      ensures Valid() && |shards| == |old(shards)|
      ensures ok && key in old(Contents()) && Contents() == old(Contents()) - {key}
      ensures used == old(used) - old(Contents())[key].size
      ensures AllSmall(old(shards)) ==> AllSmall(shards) && IsLeast(key, old(Contents()))
      ensures (exists i: nat :: SureShard(old(shards), i)) ==> IsLeast(key, old(Contents()))
    {
      hide PowerOfTwo, BitAnd, Merge, Sum, SureShard, LeastIn;
      var v, samples := FindVictim();
      if v.None? {
        NothingSampled(samples);
        assert false;
      }
      key := v.value.key;
      InRange(key);
      if AllSmall(shards) {
        VictimIsGlobal(v.value, samples);
      }
      if i: nat :| SureShard(shards, i) {
        SureVictim(v.value, samples, shards, i);
        LeastIsGlobal(v.value.idx, key);
      }
      SumRemove(Contents(), key);
      var removed := RemoveEntry(v.value.idx, v.value.key);
      ok := removed.Some?;
    }

    /** `ensure_memory_capacity`. The loop ends because every round removes an
        entry, and neither of its `break`s is reachable. It stops as soon as it
        may, and on small shards it removes exactly the least recently used. */
    method EnsureMemoryCapacity()
      requires Valid() && maxMemory > 0
      modifies `shards, `used
      ensures Valid() && |shards| == |old(shards)|
      ensures MakesRoom(Contents(), old(Contents()), maxMemory)
      ensures AllSmall(old(shards)) ==> OlderGone(Contents(), old(Contents()))
    {
      hide PowerOfTwo, BitAnd, Merge, Sum, AllSmall;
      ghost var m := Contents();
      ghost var last: Option<bytes> := None;
      while used >= maxMemory
        invariant Valid() && |shards| == |old(shards)|
        invariant Within(Contents(), m)
        invariant if last.None? then Contents() == m
                  else last.value in m && last.value !in Contents() && used + m[last.value].size >= maxMemory
        invariant AllSmall(old(shards)) ==> AllSmall(shards) && OlderGone(Contents(), m)
        decreases |Contents()|
      {
        var ok, key := EvictOne();
        if !ok {
          break;
        }
        last := Some(key);
      }
    }

    // -------------------------------------------------------- listing, purging

    /** `keys`: every live key, once. */
    method Keys(now: nat) returns (all: seq<bytes>)
      requires Valid()
      ensures NoRepeats(all)
      ensures forall k :: k in all <==> k in LiveView(View(Contents()), now)
    {
      hide PowerOfTwo, BitAnd, Merge, Sum;
      all := [];
      var idx := 0;
      while idx < |shards|
        invariant 0 <= idx <= |shards|
        invariant NoRepeats(all)
        invariant forall k :: k in all <==>
                    Index(hash, mask, k) < idx && k in Contents() && !Expired(Contents()[k], now)
      {
        var ks := LiveKeys(shards[idx], now);
        forall k ensures k in ks <==>
            Index(hash, mask, k) == idx && k in Contents() && !Expired(Contents()[k], now)
        {
          InRange(k);
        }
        NoRepeatsAppend(all, ks);
        all := all + ks;
        idx := idx + 1;
      }
      forall k ensures Index(hash, mask, k) < |shards| {
        InRange(k);
      }
    }

    /** The read section of the purge: the expired entries of a sample, with their
        sizes. */
    method SampleExpired(idx: nat, sample: nat, now: nat)
      returns (found: seq<(bytes, nat)>, ghost taken: seq<bytes>)
      requires idx < |shards|
      ensures SampleOf(taken, shards[idx], sample)
      ensures Fresh(found, shards[idx]) && NamesOf(found) == Doomed(taken, shards[idx], now)
    {
      var order := Iterate(shards[idx]);
      var sampled := Take(order, sample);
      taken := sampled;
      assert SampleOf(taken, shards[idx], sample);
      found := [];
      NamesOfNone(found);
      var j := 0;
      while j < |sampled|
        invariant 0 <= j <= |sampled|
        invariant Fresh(found, shards[idx]) && forall p <- found :: p.0 in sampled[..j]
        invariant NamesOf(found) == Doomed(sampled[..j], shards[idx], now)
      {
        var k := sampled[j];
        var e := shards[idx][k];
        DoomedStep(sampled, j, shards[idx], now);
        if Expired(e, now) {
          NamesAppend(found, (k, e.size));
          found := found + [(k, e.size)];
        }
        j := j + 1;
      }
      assert sampled[..j] == sampled;
    }

    /** One removal of the write section, if the key is still there; the size is
        the sampled one. */
    method RemoveOne(idx: nat, key: bytes, size: nat) returns (gone: bool)
      requires Shaped() && idx == Index(hash, mask, key) < |shards|
      modifies `shards, `used
      ensures Shaped() && shards == old(shards)[idx := Drop(old(shards)[idx], key)]
      ensures Contents() == Drop(old(Contents()), key) && gone == (key in old(Contents()))
      ensures |Contents()| + (if gone then 1 else 0) == |old(Contents())|
      ensures used == old(used) - if gone then size else 0
    {
      hide PowerOfTwo, BitAnd, Merge, Sum, Index;
      RemovedSize(Contents(), key);
      var removed := TakeOut(idx, key);
      gone := removed.Some?;
      if gone {
        used := used - size;
      }
    }

    /** The write section of the purge. Whatever happened since the sample was
        taken, it removes the sampled keys that are there and subtracts the sizes
        that were sampled; if nothing happened, the counter stays exact. */
    method RemoveSampled(idx: nat, found: seq<(bytes, nat)>) returns (purged: nat)
      requires Shaped() && idx < |shards| && forall p <- found :: Index(hash, mask, p.0) == idx
      modifies `shards, `used
      ensures Shaped() && |shards| == |old(shards)|
      ensures forall i :: 0 <= i < |shards| && i != idx ==> shards[i] == old(shards)[i]
      ensures shards[idx] == old(shards)[idx] - NamesOf(found)
      ensures Contents() == old(Contents()) - NamesOf(found)
      ensures |Contents()| + purged == |old(Contents())|
      ensures used == old(used) - Discount(old(Contents()), found)
      ensures old(Valid()) && Fresh(found, old(Contents())) ==> Valid()
    {
      hide Shaped, Contents, NamesOf, Discount, Index, Fresh, Sum, Removing, OnlyShard;
      ghost var was := Now(shards, Contents(), used);
      purged := RemoveEach(idx, found);
      RemovingAll(was, idx, found, purged, Now(shards, Contents(), used));
      OnlyShardMeans(was.shards, shards, idx, was.shards[idx] - NamesOf(found));
      DiscountFresh(was.contents, found);
    }

    method RemoveEach(idx: nat, found: seq<(bytes, nat)>) returns (purged: nat)
      requires Shaped() && idx < |shards| && forall p <- found :: Index(hash, mask, p.0) == idx
      modifies `shards, `used
      ensures Shaped()
      ensures Removing(old(Now(shards, Contents(), used)), idx, found, |found|, purged, Now(shards, Contents(), used))
    {
      hide Shaped, Contents, Index, Removing, Drop;
      ghost var was := Now(shards, Contents(), used);
      purged := 0;
      RemovingNone(was, idx, found);
      var j := 0;
      while j < |found|
        invariant 0 <= j <= |found| && Shaped() && |shards| == |was.shards|
        invariant Removing(was, idx, found, j, purged, Now(shards, Contents(), used))
      {
        assert found[j] in found;
        ghost var last := Now(shards, Contents(), used);
        var gone := RemoveOne(idx, found[j].0, found[j].1);
        RemovingStep(was, idx, found, j, purged, last, Now(shards, Contents(), used), gone);
        purged := if gone then purged + 1 else purged;
        j := j + 1;
      }
    }

    lemma FreshEverywhere(idx: nat, found: seq<(bytes, nat)>)
      requires Shaped() && idx < |shards| && Fresh(found, shards[idx])
      ensures Fresh(found, Contents()) && forall p <- found :: Index(hash, mask, p.0) == idx
    {
      hide PowerOfTwo, BitAnd, Merge, Sum;
      forall p <- found ensures p.0 in Contents() && Contents()[p.0] == shards[idx][p.0] {
        InRange(p.0);
      }
    }

    /** Both sections for one shard. */
    method PurgeShard(idx: nat, sample: nat, now: nat) returns (purged: nat, ghost taken: seq<bytes>)
      requires Valid() && idx < |shards|
      modifies `shards, `used
      ensures Valid() && SampleOf(taken, old(shards)[idx], sample)
      ensures shards == old(shards)[idx := old(shards)[idx] - Doomed(taken, old(shards)[idx], now)]
      ensures Contents() == old(Contents()) - Doomed(taken, old(shards)[idx], now)
      ensures |Contents()| + purged == |old(Contents())|
    {
      hide PowerOfTwo, BitAnd, Merge, Sum, Index, Doomed, NamesOf, SampleOf;
      purged := 0;
      var found: seq<(bytes, nat)>;
      found, taken := SampleExpired(idx, sample, now);
      FreshEverywhere(idx, found);
      if found == [] {
        NamesOfNone(found);
        assert shards[idx] - {} == shards[idx] && Contents() - {} == Contents();
      } else {
        purged := RemoveSampled(idx, found);
      }
    }

    /** `purge_expired_sample`: from a sample of every shard, exactly the expired
        entries go. */
    method PurgeExpiredSample(sample: nat, now: nat) returns (purged: nat, ghost samples: seq<seq<bytes>>)
      requires Valid()
      modifies `shards, `used
      ensures Valid() && |shards| == |old(shards)| == |samples|
      ensures Swept(old(shards), shards, samples, sample, now)
      ensures |Contents()| + purged == |old(Contents())|
      ensures Within(Contents(), old(Contents())) && Trimmed(View(Contents()), View(old(Contents())), now)
      ensures (forall i :: 0 <= i < |shards| ==> |old(shards)[i]| <= sample) ==>
                forall k <- Contents() :: !Expired(Contents()[k], now)
    {
      hide Valid, Shaped, Merge, Swept, SampleOf, Doomed, Trimmed, View;
      purged, samples := 0, [];
      ghost var m := Merge(shards, hash, mask);
      assert Contents() == m;
      SweptNothing(shards, sample, now);
      var idx := 0;
      while idx < |shards|
        invariant 0 <= idx <= |shards| == |old(shards)| && |samples| == idx
        invariant Valid() && Swept(old(shards), shards, samples, sample, now)
        invariant |Contents()| + purged == |m| && Within(Contents(), m)
      {
        ghost var mid := shards;
        var n, taken := PurgeShard(idx, sample, now);
        SweptStep(old(shards), mid, samples, taken, sample, now);
        purged, samples, idx := purged + n, samples + [taken], idx + 1;
      }
      PurgedExpired(m, old(shards), samples, sample, now);
    }

    /** What a purge means for the contents as a whole. */
    lemma PurgedExpired(m: Shard, before: seq<Shard>, samples: seq<seq<bytes>>, sample: nat, now: nat)
      requires Valid() && |shards| == |before| == |samples| && m == Merge(before, hash, mask)
      requires Swept(before, shards, samples, sample, now)
      ensures Within(Contents(), m) && Trimmed(View(Contents()), View(m), now)
      ensures (forall i :: 0 <= i < |shards| ==> |before[i]| <= sample) ==>
                forall k <- Contents() :: !Expired(Contents()[k], now)
    {
      hide PowerOfTwo, BitAnd, Sum, Merge;
      forall k ensures k in Contents() ==> k in m && m[k] == Contents()[k]
               ensures k in m && k !in Contents() ==> Expired(m[k], now)
               ensures (forall i :: 0 <= i < |shards| ==> |before[i]| <= sample) && k in Contents() ==>
                         !Expired(Contents()[k], now)
      {
        InRange(k);
        MergeLookup(before, hash, mask, k);
      }
    }
  }

  /** The first shards, as many as there are samples, have lost exactly the expired
      entries of their sample. */
  ghost predicate Swept(before: seq<Shard>, after: seq<Shard>, samples: seq<seq<bytes>>, sample: nat, now: nat) {
    && |samples| <= |before| == |after|
    && (forall i :: 0 <= i < |samples| ==>
          SampleOf(samples[i], before[i], sample) && after[i] == before[i] - Doomed(samples[i], before[i], now))
    && (forall i :: |samples| <= i < |before| ==> after[i] == before[i])
  }

  lemma SweptNothing(shards: seq<Shard>, sample: nat, now: nat)
    ensures Swept(shards, shards, [], sample, now)
  {
  }

  lemma SweptStep(before: seq<Shard>, mid: seq<Shard>, samples: seq<seq<bytes>>, taken: seq<bytes>,
                  sample: nat, now: nat)
    requires Swept(before, mid, samples, sample, now) && |samples| < |before|
    requires SampleOf(taken, mid[|samples|], sample)
    ensures var i := |samples|;
            Swept(before, mid[i := mid[i] - Doomed(taken, mid[i], now)], samples + [taken], sample, now)
  {
    hide SampleOf, Doomed;
  }

  /** The expired keys of a sample. */
  ghost function Doomed(taken: seq<bytes>, m: Shard, now: nat): set<bytes> {
    set k | k in taken && k in m && Expired(m[k], now)
  }

  lemma DoomedStep(taken: seq<bytes>, j: nat, m: Shard, now: nat)
    requires j < |taken| && taken[j] in m
    ensures Doomed(taken[..j + 1], m, now) ==
            Doomed(taken[..j], m, now) + if Expired(m[taken[j]], now) then {taken[j]} else {}
  {
    assert taken[..j + 1] == taken[..j] + [taken[j]];
  }

  predicate NoRepeats(s: seq<bytes>) {
    forall i, j :: 0 <= i < j < |s| ==> s[i] != s[j]
  }

  /** The inner loop of `keys`. */
  method LiveKeys(m: Shard, now: nat) returns (ks: seq<bytes>)
    ensures NoRepeats(ks)
    ensures forall k :: k in ks <==> k in m && !Expired(m[k], now)
  {
    var order := Iterate(m);
    ks := [];
    var j := 0;
    while j < |order|
      invariant 0 <= j <= |order|
      invariant NoRepeats(ks)
      invariant forall k :: k in ks <==> k in order[..j] && !Expired(m[k], now)
    {
      if m[order[j]].expiresAt.None? || m[order[j]].expiresAt.value > now {
        ks := ks + [order[j]];
      }
      j := j + 1;
    }
  }

  function SizeAt(m: Shard, key: bytes): nat {
    if key in m then m[key].size else 0
  }

  /** The sampled sizes of the keys that are still there. */
  function Discount(m: Shard, found: seq<(bytes, nat)>): nat {
    if found == [] then 0
    else (if found[0].0 in m then found[0].1 else 0) + Discount(m - {found[0].0}, found[1..])
  }

  lemma DiscountNone(m: Shard)
    ensures Discount(m, []) == 0
  {
  }

  lemma {:induction false} DiscountFresh(m: Shard, found: seq<(bytes, nat)>)
    ensures Fresh(found, m) ==> Sum(m) - Discount(m, found) == Sum(m - NamesOf(found))
    decreases |found|
  {
    hide Sum;
    if found == [] {
      assert m - NamesOf(found) == m;
    } else if Fresh(found, m) {
      var k := found[0].0;
      assert found[0] in found;
      SumRemove(m, k);
      assert Fresh(found[1..], m - {k});
      DiscountFresh(m - {k}, found[1..]);
      assert NamesOf(found) == {k} + NamesOf(found[1..]);
      assert m - {k} - NamesOf(found[1..]) == m - NamesOf(found);
    }
  }

  /** Sampled keys are distinct, present, and carry their current size. */
  ghost predicate Fresh(found: seq<(bytes, nat)>, m: Shard) {
    && (forall i, j :: 0 <= i < j < |found| ==> found[i].0 != found[j].0)
    && (forall p <- found :: p.0 in m && m[p.0].size == p.1)
  }

  ghost function NamesOf(found: seq<(bytes, nat)>): set<bytes> {
    set p | p in found :: p.0
  }

  /** Nothing but this shard has changed. */
  ghost predicate OnlyShard(before: seq<Shard>, after: seq<Shard>, idx: nat, m: Shard) {
    && |after| == |before| && idx < |before| && after[idx] == m
    && forall i :: 0 <= i < |before| && i != idx ==> after[i] == before[i]
  }

  lemma OnlyShardMeans(before: seq<Shard>, after: seq<Shard>, idx: nat, m: Shard)
    requires OnlyShard(before, after, idx, m)
    ensures |after| == |before| && idx < |before| && after[idx] == m
    ensures forall i :: 0 <= i < |before| && i != idx ==> after[i] == before[i]
  {
  }

  /** The state of a database at one moment. */
  datatype State = Now(shards: seq<Shard>, contents: Shard, used: int)

  function Drop(m: Shard, key: bytes): Shard {
    m - {key}
  }

  /** What is left of m after the first j removals, and what is still to subtract. */
  ghost function Left(m: Shard, found: seq<(bytes, nat)>, j: nat): Shard
    requires j <= |found|
  {
    m - NamesOf(found[..j])
  }

  ghost function Owed(m: Shard, found: seq<(bytes, nat)>, j: nat): nat
    requires j <= |found|
  {
    Discount(m, found[j..])
  }

  lemma LeftStep(m: Shard, found: seq<(bytes, nat)>, j: nat)
    requires j < |found|
    ensures Left(m, found, j + 1) == Drop(Left(m, found, j), found[j].0)
  {
    MinusOne(m, found, j);
  }

  lemma OwedStep(m: Shard, found: seq<(bytes, nat)>, j: nat)
    requires j < |found|
    ensures Owed(m, found, j) == (if found[j].0 in m then found[j].1 else 0) + Owed(Drop(m, found[j].0), found, j + 1)
  {
    assert found[j..][0] == found[j] && found[j..][1..] == found[j + 1..];
  }

  lemma LeftEnds(m: Shard, found: seq<(bytes, nat)>)
    ensures Left(m, found, 0) == m && Left(m, found, |found|) == m - NamesOf(found)
    ensures Owed(m, found, 0) == Discount(m, found) && Owed(m, found, |found|) == 0
  {
    MinusNone(m, found);
    assert found[..|found|] == found && found[0..] == found && found[|found|..] == [];
  }

  /** The first j of the sampled keys are gone, and their sizes subtracted. */
  ghost predicate Removing(was: State, idx: nat, found: seq<(bytes, nat)>, j: nat, purged: nat, now: State)
    requires idx < |was.shards| && j <= |found|
  {
    && OnlyShard(was.shards, now.shards, idx, Left(was.shards[idx], found, j))
    && now.contents == Left(was.contents, found, j)
    && |now.contents| + purged == |was.contents|
    && now.used - Owed(now.contents, found, j) == was.used - Owed(was.contents, found, 0)
  }

  lemma RemovingNone(was: State, idx: nat, found: seq<(bytes, nat)>)
    requires idx < |was.shards|
    ensures Removing(was, idx, found, 0, 0, was)
  {
    hide Left, Owed;
    LeftEnds(was.contents, found);
    LeftEnds(was.shards[idx], found);
  }

  lemma RemovingAll(was: State, idx: nat, found: seq<(bytes, nat)>, purged: nat, now: State)
    requires idx < |was.shards| && Removing(was, idx, found, |found|, purged, now)
    ensures OnlyShard(was.shards, now.shards, idx, was.shards[idx] - NamesOf(found))
    ensures now.contents == was.contents - NamesOf(found)
    ensures |now.contents| + purged == |was.contents| && now.used == was.used - Discount(was.contents, found)
  {
    hide Left, Owed, OnlyShard;
    LeftEnds(was.contents, found);
    LeftEnds(was.shards[idx], found);
    LeftEnds(now.contents, found);
  }

  lemma RemovingStep(was: State, idx: nat, found: seq<(bytes, nat)>, j: nat, purged: nat, last: State, now: State,
                     gone: bool)
    requires idx < |was.shards| && j < |found| && Removing(was, idx, found, j, purged, last)
    requires |last.shards| == |was.shards| && now.shards == last.shards[idx := Drop(last.shards[idx], found[j].0)]
    requires now.contents == Drop(last.contents, found[j].0) && gone == (found[j].0 in last.contents)
    requires |now.contents| + (if gone then 1 else 0) == |last.contents|
    requires now.used == last.used - if gone then found[j].1 else 0
    ensures Removing(was, idx, found, j + 1, if gone then purged + 1 else purged, now)
  {
    hide Left, Owed, Drop;
    OwedStep(last.contents, found, j);
    LeftStep(was.contents, found, j);
    LeftStep(was.shards[idx], found, j);
  }

  lemma MinusNone(m: Shard, found: seq<(bytes, nat)>)
    ensures m - NamesOf(found[..0]) == m
  {
  }

  lemma MinusOne(m: Shard, found: seq<(bytes, nat)>, j: nat)
    requires j < |found|
    ensures m - NamesOf(found[..j]) - {found[j].0} == m - NamesOf(found[..j + 1])
  {
    assert found[..j + 1] == found[..j] + [found[j]];
    NamesAppend(found[..j], found[j]);
    MinusMinus(m, NamesOf(found[..j]), found[j].0);
  }

  lemma NamesAppend(found: seq<(bytes, nat)>, p: (bytes, nat))
    ensures NamesOf(found + [p]) == NamesOf(found) + {p.0}
  {
  }

  lemma NamesOfNone(found: seq<(bytes, nat)>)
    requires found == []
    ensures NamesOf(found) == {}
  {
  }

  lemma MinusMinus(m: Shard, names: set<bytes>, k: bytes)
    ensures m - names - {k} == m - (names + {k})
  {
  }

  lemma NoRepeatsAppend(a: seq<bytes>, b: seq<bytes>)
    requires NoRepeats(a) && NoRepeats(b) && forall k <- a :: k !in b
    ensures NoRepeats(a + b)
  {
    assert forall i :: 0 <= i < |a| ==> a[i] in a;
  }

  ghost predicate AllSmall(shards: seq<Shard>) {
    forall i :: 0 <= i < |shards| ==> |shards[i]| <= 5
  }

  ghost predicate IsLeast(key: bytes, m: Shard) {
    key in m && forall k <- m :: m[key].lastAccessed <= m[k].lastAccessed
  }

  /** c is m with some entries removed. */
  ghost predicate Within(c: Shard, m: Shard) {
    forall k <- c :: k in m && c[k] == m[k]
  }

  /** What is kept of m to get below a limit, if there is one: no entry changes, and
      the last one evicted had to go. */
  ghost predicate MakesRoom(kept: Shard, m: Shard, max: nat) {
    && Within(kept, m)
    && (max == 0 ==> kept == m)
    && (max > 0 ==> Sum(kept) < max)
    && (kept == m || exists k <- m :: k !in kept && Sum(kept) + m[k].size >= max)
  }

  /** Below the limit nothing is evicted. */
  lemma RoomLeft(kept: Shard, m: Shard, max: nat)
    requires MakesRoom(kept, m, max)
    ensures kept == m <==> max == 0 || Sum(m) < max
  {
    hide Sum;
    if kept != m {
      var k :| k in m && k !in kept && Sum(kept) + m[k].size >= max;
      SumRemove(m, k);
      SumWithin(kept, m - {k});
    }
  }

  lemma {:induction false} SumWithin(c: Shard, m: Shard)
    requires Within(c, m)
    ensures Sum(c) <= Sum(m)
    decreases |c|
  {
    if c != map[] {
      var k :| k in c && Sum(c) == c[k].size + Sum(c - {k});
      SumRemove(m, k);
      SumWithin(c - {k}, m - {k});
    }
  }

  /** No removed entry was used more recently than one that stayed. */
  ghost predicate OlderGone(c: Shard, m: Shard) {
    forall k, s :: k in m && k !in c && s in c && s in m ==> m[k].lastAccessed <= m[s].lastAccessed
  }
}
