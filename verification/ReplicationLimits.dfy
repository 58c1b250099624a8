/** Runs in which a replica that has received everything still differs from its
    master: the failing sides of the exact conditions in module Convergence. */
module ReplicationLimits {
  import opened Bytes
  import opened Resp
  import opened Commands
  import opened Store
  import opened WriteLog
  import opened Replication
  import opened Convergence
  import RoundTrip
  import RespLimits

  /** A SET that a client can send. */
  ghost predicate Sendable(k: bytes, v: bytes, px: Option<nat>) {
    Utf8(k) && |k| <= I64_MAX && |v| <= I64_MAX && (px.Some? ==> px.value <= U64_MAX)
  }

  lemma SetOnWire(k: bytes, v: bytes, px: Option<nat>)
    requires Sendable(k, v, px)
    ensures var raw := Serialize(EncodeSet(k, v, px));
            Parse(raw) == Frame(EncodeSet(k, v, px), |raw|)
    ensures FromValue(EncodeSet(k, v, px)) == Ok(Set(k, v, px))
  {
    hide Parse, Utf8, FromValue, Decimal;
    SetDecodes("SET", "PX", k, v, px);
    var c := EncodeSet(k, v, px);
    if px.Some? {
      RespLimits.DecimalShort(px.value);
    }
    assert forall x <- c.items :: x.BulkString? && |x.data| <= I64_MAX;
    assert RoundTrip.AllAsRead(c.items) == c.items by {
      RoundTrip.AllAsReadIdentity(c.items);
    }
    RoundTrip.RoundTrip(c, []);
    assert Serialize(c) + [] == Serialize(c);
  }

  /** The snapshot is empty: a replica that registers after a SET never sees the
      key, although nothing is missing from its stream. */
  lemma SnapshotMissesKey(t0: nat, k: bytes, v: bytes) returns (run: seq<Action>, s: System)
    requires Sendable(k, v, None)
    ensures Reaches(t0, run, s) && |s.replicas| == 1 && Drained(s.replicas[0])
    ensures k in LiveView(s.master, s.now) && k !in s.replicas[0].store
  {
    hide Parse, FromValue, Reaches, Serialize;
    var raw := Serialize(EncodeSet(k, v, None));
    SetOnWire(k, v, None);
    run, s := [], Start(t0);
    assert Reaches(t0, [], s) by { StartReached(t0); }
    OneMore(t0, run, s, Client(raw));
    run, s := run + [Client(raw)], Do(s, Client(raw));
    OneMore(t0, run, s, Register);
    run, s := run + [Register], Do(s, Register);
  }

  /** A PX counts from when each side executes it: applied `a` later by the
      replica, the key is gone at the master and still live at the replica
      `b` later. */
  lemma StaleKey(t0: nat, k: bytes, v: bytes, px: nat, a: nat, b: nat) returns (run: seq<Action>, s: System)
    requires Sendable(k, v, Some(px)) && b < px <= a + b
    ensures Reaches(t0, run, s) && |s.replicas| == 1 && Drained(s.replicas[0])
    ensures k !in LiveView(s.master, s.now) && k in LiveView(s.replicas[0].store, s.now)
  {
    hide Parse, FromValue, Reaches, Serialize;
    var raw := Serialize(EncodeSet(k, v, Some(px)));
    SetOnWire(k, v, Some(px));
    var none: bytes := [];
    assert none + raw == raw && raw[..|raw|] == raw && raw[|raw|..] == none;
    var nobody: set<bytes> := {};
    assert nobody - {k} == nobody && nobody + {k} == {k};
    StartReached(t0);
    run, s := [], Start(t0);
    OneMore(t0, run, s, Register);
    run, s := run + [Register], Do(s, Register);
    OneMore(t0, run, s, Client(raw));
    run, s := run + [Client(raw)], Do(s, Client(raw));
    assert s.replicas == [Replica(0, map[], raw, [], [], map[], 0, {}, {})];
    OneMore(t0, run, s, Deliver(0, |raw|));
    run, s := run + [Deliver(0, |raw|)], Do(s, Deliver(0, |raw|));
    OneMore(t0, run, s, Tick(a));
    run, s := run + [Tick(a)], Do(s, Tick(a));
    assert s.replicas == [Replica(0, map[], [], raw, [], map[], 0, {}, {})];
    OneMore(t0, run, s, Take(0));
    run, s := run + [Take(0)], Do(s, Take(0));
    OneMore(t0, run, s, Tick(b));
    run, s := run + [Tick(b)], Do(s, Tick(b));
  }

  /** An eviction is not propagated: the replica keeps the key, and a DEL of it,
      finding nothing at the master, is not propagated either. */
  lemma EvictedKeyStays(t0: nat, k: bytes, v: bytes, del: bytes) returns (run: seq<Action>, s: System)
    requires Sendable(k, v, None)
    requires Parse(del).Frame? && Parse(del).consumed == |del| && FromValue(Parse(del).value) == Ok(Del([k]))
    ensures Reaches(t0, run, s) && |s.replicas| == 1 && Drained(s.replicas[0])
    ensures k !in s.master && k in LiveView(s.replicas[0].store, s.now)
    ensures Do(s, Client(del)) == s
  {
    hide Parse, FromValue, Reaches, Serialize;
    var raw := Serialize(EncodeSet(k, v, None));
    SetOnWire(k, v, None);
    var none: bytes := [];
    assert none + raw == raw && raw[..|raw|] == raw && raw[|raw|..] == none;
    var nobody: set<bytes> := {};
    assert nobody - {k} == nobody && nobody + {k} == {k};
    StartReached(t0);
    run, s := [], Start(t0);
    OneMore(t0, run, s, Register);
    run, s := run + [Register], Do(s, Register);
    OneMore(t0, run, s, Client(raw));
    run, s := run + [Client(raw)], Do(s, Client(raw));
    OneMore(t0, run, s, MasterEvicts({k}));
    run, s := run + [MasterEvicts({k})], Do(s, MasterEvicts({k}));
    assert s.replicas == [Replica(0, map[], raw, [], [], map[], 0, {k}, {})];
    OneMore(t0, run, s, Deliver(0, |raw|));
    run, s := run + [Deliver(0, |raw|)], Do(s, Deliver(0, |raw|));
    assert s.replicas == [Replica(0, map[], [], raw, [], map[], 0, {k}, {})];
    OneMore(t0, run, s, Take(0));
    run, s := run + [Take(0)], Do(s, Take(0));
  }
}
