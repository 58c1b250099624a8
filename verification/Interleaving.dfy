/** Byte accounting under concurrency: every locked section of the store is one
    step, and any number of clients and purgers interleave their steps. */
module Interleaving {
  import opened Bytes
  import opened Store
  import opened Storage

  type Sampled = seq<(bytes, nat)>

  /** The shared store, and what each purger remembers between its two sections. */
  datatype Shared = Shared(entries: Shard, used: int, samples: map<nat, Sampled>)

  datatype Step =
    | Touch(key: bytes, now: nat)
    | LazyRemove(key: bytes, now: nat)
    | Insert(key: bytes, entry: Entry)
    | Remove(key: bytes)
    | Sample(who: nat, found: Sampled, now: nat)
    | Purge(who: nat)

  ghost predicate Enabled(s: Shared, a: Step) {
    match a
    case Sample(_, found, now) =>
      Fresh(found, s.entries) && forall p <- found :: Expired(s.entries[p.0], now)
    case Purge(who) => who in s.samples
    case _ => true
  }

  function Without(s: Shared, key: bytes): Shared {
    if key in s.entries then s.(entries := s.entries - {key}, used := s.used - s.entries[key].size) else s
  }

  /** The write section of the purge: it subtracts the sizes it sampled. */
  function PurgeAll(s: Shared, found: Sampled): Shared
    decreases |found|
  {
    if found == [] then s
    else if found[0].0 in s.entries then
      PurgeAll(s.(entries := s.entries - {found[0].0}, used := s.used - found[0].1), found[1..])
    else PurgeAll(s, found[1..])
  }

  function Do(s: Shared, a: Step): Shared
    requires a.Purge? ==> a.who in s.samples
  {
    match a
    case Touch(key, now) =>
      if key in s.entries && !Expired(s.entries[key], now)
      then s.(entries := s.entries[key := s.entries[key].(lastAccessed := now)]) else s
    case LazyRemove(key, now) =>
      if key in s.entries && Expired(s.entries[key], now) then Without(s, key) else s
    case Insert(key, e) =>
      s.(entries := s.entries[key := e],
         used := s.used - (if key in s.entries then s.entries[key].size else 0) + e.size)
    case Remove(key) => Without(s, key)
    case Sample(who, found, _) => s.(samples := s.samples[who := found])
    case Purge(who) => PurgeAll(s.(samples := s.samples - {who}), s.samples[who])
  }

  // ------------------------------------------------------------------- drift

  /** How far the counter is from the truth. */
  ghost function Gap(s: Shared): int {
    s.used - Sum(s.entries)
  }

  /** Sizes removed minus sizes subtracted: what replaced entries add to the gap. */
  function Drift(m: Shard, found: Sampled): int {
    if found == [] then 0
    else (if found[0].0 in m then m[found[0].0].size - found[0].1 else 0) + Drift(m - {found[0].0}, found[1..])
  }

  /** What a step adds to the gap: only a purge does. */
  function DriftOf(s: Shared, a: Step): int
    requires a.Purge? ==> a.who in s.samples
  {
    if a.Purge? then Drift(s.entries, s.samples[a.who]) else 0
  }

  lemma {:induction false} PurgeGap(s: Shared, found: Sampled)
    ensures Gap(PurgeAll(s, found)) == Gap(s) + Drift(s.entries, found)
    decreases |found|
  {
    if found != [] {
      var (k, size) := found[0];
      if k in s.entries {
        SumRemove(s.entries, k);
        PurgeGap(s.(entries := s.entries - {k}, used := s.used - size), found[1..]);
      } else {
        assert s.entries - {k} == s.entries;
        PurgeGap(s, found[1..]);
      }
    }
  }

  /** Every section keeps the gap, except a purge that removes entries whose
      size is not the sampled one. */
  lemma StepGap(s: Shared, a: Step)
    requires Enabled(s, a)
    ensures Gap(Do(s, a)) == Gap(s) + DriftOf(s, a)
  {
    hide Sum, PurgeAll, Drift;
    match a
    case Touch(key, now) =>
      if key in s.entries {
        var e := s.entries[key].(lastAccessed := now);
        SumInsert(s.entries, key, e);
        SumRemove(s.entries, key);
      }
    case LazyRemove(key, _) =>
      if key in s.entries {
        SumRemove(s.entries, key);
      }
    case Remove(key) =>
      if key in s.entries {
        SumRemove(s.entries, key);
      }
    case Insert(key, e) =>
      SumInsert(s.entries, key, e);
      if key in s.entries {
        SumRemove(s.entries, key);
      } else {
        assert s.entries - {key} == s.entries;
      }
    case Sample(_, _, _) =>
    case Purge(who) => PurgeGap(s.(samples := s.samples - {who}), s.samples[who]);
  }

  /** No sampled entry still present was replaced by one of another size. */
  ghost predicate SizesStand(m: Shard, found: Sampled) {
    forall p <- found :: p.0 in m ==> m[p.0].size == p.1
  }

  lemma {:induction false} StandingSizesDoNotDrift(m: Shard, found: Sampled)
    requires SizesStand(m, found)
    ensures Drift(m, found) == 0
    decreases |found|
  {
    if found != [] {
      assert found[0] in found;
      StandingSizesDoNotDrift(m - {found[0].0}, found[1..]);
    }
  }

  // -------------------------------------------------------------------- runs

  const Empty := Shared(map[], 0, map[])

  /** s is reached by interleaving the steps in `run`, and `drift` is what its
      purges have added up to. */
  ghost predicate Reaches(run: seq<Step>, s: Shared, drift: int)
    decreases |run|
  {
    if run == [] then s == Empty && drift == 0 else
    var n := |run| - 1;
    exists p, d :: Reaches(run[..n], p, d) && Enabled(p, run[n]) && s == Do(p, run[n])
                   && drift == d + DriftOf(p, run[n])
  }

  /** In every state of every interleaving the counter is the sum of the entry
      sizes plus the drift of the purges, so it is exact if and only if the drift
      is zero. */
  lemma {:induction false} CounterIsExactUpToDrift(run: seq<Step>, s: Shared, drift: int)
    requires Reaches(run, s, drift)
    ensures s.used == Sum(s.entries) + drift
    ensures s.used == Sum(s.entries) <==> drift == 0
    decreases |run|
  {
    hide Drift, Do;
    if run != [] {
      var n := |run| - 1;
      var p, d :| Reaches(run[..n], p, d) && Enabled(p, run[n]) && s == Do(p, run[n])
                  && drift == d + DriftOf(p, run[n]);
      CounterIsExactUpToDrift(run[..n], p, d);
      StepGap(p, run[n]);
    }
  }

  /** A run in which no purge meets a replaced entry. */
  ghost predicate ReachesCleanly(run: seq<Step>, s: Shared)
    decreases |run|
  {
    if run == [] then s == Empty else
    var n := |run| - 1;
    exists p :: ReachesCleanly(run[..n], p) && Enabled(p, run[n]) && s == Do(p, run[n])
                && (run[n].Purge? ==> SizesStand(p.entries, p.samples[run[n].who]))
  }

  /** Then the counter is exact, and never negative, in every state. */
  lemma {:induction false} CleanRunsCountExactly(run: seq<Step>, s: Shared)
    requires ReachesCleanly(run, s)
    ensures s.used == Sum(s.entries) >= 0
    decreases |run|
  {
    hide Drift, Do, SizesStand;
    if run != [] {
      var n := |run| - 1;
      var p :| ReachesCleanly(run[..n], p) && Enabled(p, run[n]) && s == Do(p, run[n])
               && (run[n].Purge? ==> SizesStand(p.entries, p.samples[run[n].who]));
      CleanRunsCountExactly(run[..n], p);
      StepGap(p, run[n]);
      if run[n].Purge? {
        StandingSizesDoNotDrift(p.entries, p.samples[run[n].who]);
      }
    }
  }

  // ------------------------------------------------------- what clients lose

  lemma {:induction false} PurgeRemovesSampled(s: Shared, found: Sampled)
    ensures PurgeAll(s, found).entries == s.entries - NamesOf(found)
    decreases |found|
  {
    if found == [] {
      assert s.entries - NamesOf(found) == s.entries;
    } else {
      var k := found[0].0;
      var t := if k in s.entries then s.(entries := s.entries - {k}, used := s.used - found[0].1) else s;
      PurgeRemovesSampled(t, found[1..]);
      assert NamesOf(found) == {k} + NamesOf(found[1..]);
      assert t.entries == s.entries - {k};
      assert s.entries - {k} - NamesOf(found[1..]) == s.entries - NamesOf(found);
    }
  }

  /** A purge is invisible to clients if and only if every sampled key that is
      still present is still expired. */
  lemma PurgeUnseenExactly(s: Shared, found: Sampled, now: nat)
    ensures LiveView(View(PurgeAll(s, found).entries), now) == LiveView(View(s.entries), now)
       <==> forall p <- found :: p.0 in s.entries ==> Expired(s.entries[p.0], now)
  {
    hide PurgeAll;
    PurgeRemovesSampled(s, found);
    var before, after := LiveView(View(s.entries), now), LiveView(View(s.entries - NamesOf(found)), now);
    assert forall k :: k in after <==> k in before && k !in NamesOf(found);
    if after == before {
      forall p <- found | p.0 in s.entries ensures Expired(s.entries[p.0], now) {
        assert p.0 in NamesOf(found);
        assert p.0 !in before;
      }
    }
  }

  /** It can happen: a purger samples an expired key, a client sets it again, and
      the purger removes the new, live entry and subtracts the old size. */
  lemma PurgeRace(k: bytes, old': bytes, new': bytes, now: nat)
    requires |old'| != |new'|
    ensures var e, f := NewEntry(|k|, old', Some(now), now), NewEntry(|k|, new', None, now);
            var a := Do(Empty, Insert(k, e));
            var b := Do(a, Sample(0, [(k, e.size)], now));
            var c := Do(b, Insert(k, f));
            var d := Do(c, Purge(0));
            && Enabled(a, Sample(0, [(k, e.size)], now))
            && k in LiveView(View(c.entries), now)
            && d.entries == map[] && d.used == |new'| - |old'|
  {
    var e, f := NewEntry(|k|, old', Some(now), now), NewEntry(|k|, new', None, now);
    var found := [(k, e.size)];
    var a := Do(Empty, Insert(k, e));
    assert a.entries == map[k := e] && a.used == e.size;
    assert Fresh(found, a.entries);
    var c := Do(Do(a, Sample(0, found, now)), Insert(k, f));
    assert c.entries == map[k := f] && c.used == f.size && c.samples[0] == found;
    var w := c.(samples := c.samples - {0});
    var x := w.(entries := w.entries - {k}, used := w.used - e.size);
    assert found[0] == (k, e.size) && found[1..] == [];
    assert PurgeAll(w, found) == PurgeAll(x, found[1..]) == x;
  }
}
