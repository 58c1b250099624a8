/** Replaying a log of writes: the reference for what a replica must hold. */
module WriteLog {
  import opened Bytes
  import opened Commands
  import opened Store

  /** A propagated write: its bytes, the command, the master's clock. */
  datatype Logged = Logged(raw: bytes, cmd: Command, at: nat)

  function RawLog(log: seq<Logged>): bytes {
    if log == [] then [] else log[0].raw + RawLog(log[1..])
  }

  function Ats(log: seq<Logged>): seq<nat> {
    seq(|log|, i requires 0 <= i < |log| => log[i].at)
  }

  /** The log applied from m, entry i at times[i]. */
  function Replay(m: Table, log: seq<Logged>, times: seq<nat>): Table
    requires |log| == |times|
  {
    if log == [] then m else
    var n := |log| - 1;
    Apply(Replay(m, log[..n], times[..n]), log[n].cmd, times[n])
  }

  predicate Writes(c: Command, k: bytes) {
    c.Set? && c.key == k
  }

  predicate Touches(c: Command, k: bytes) {
    Writes(c, k) || (c.Del? && k in c.keys)
  }

  ghost predicate Wrote(log: seq<Logged>, k: bytes) {
    exists e <- log :: Writes(e.cmd, k)
  }

  ghost predicate Touched(log: seq<Logged>, k: bytes) {
    exists e <- log :: Touches(e.cmd, k)
  }

  lemma {:induction false} RawLogAppend(a: seq<Logged>, b: seq<Logged>)
    ensures RawLog(a + b) == RawLog(a) + RawLog(b)
  {
    if a == [] {
      assert a + b == b;
    } else {
      assert (a + b)[1..] == a[1..] + b;
      RawLogAppend(a[1..], b);
      assert a[0].raw + (RawLog(a[1..]) + RawLog(b)) == a[0].raw + RawLog(a[1..]) + RawLog(b);
    }
  }

  lemma ReplayAppend(m: Table, log: seq<Logged>, times: seq<nat>, e: Logged, t: nat)
    requires |log| == |times|
    ensures Replay(m, log + [e], times + [t]) == Apply(Replay(m, log, times), e.cmd, t)
  {
    var l, ts := log + [e], times + [t];
    assert l[..|log|] == log && ts[..|log|] == times;
  }

  /** A key is there only if some SET put it there or it was there before. */
  lemma {:induction false} ReplayKeys(m: Table, log: seq<Logged>, times: seq<nat>, k: bytes)
    requires |log| == |times|
    ensures k in Replay(m, log, times) ==> k in m || Wrote(log, k)
    ensures !Touched(log, k) ==>
              (k in Replay(m, log, times) <==> k in m) && (k in m ==> Replay(m, log, times)[k] == m[k])
    decreases |log|
  {
    if log != [] {
      var n := |log| - 1;
      ReplayKeys(m, log[..n], times[..n], k);
      assert log[n] in log;
      assert forall e <- log[..n] :: e in log;
    }
  }

  /** Once touched, a key no longer depends on what was there before. */
  lemma {:induction false} ReplayForgets(m: Table, m': Table, log: seq<Logged>, times: seq<nat>, k: bytes)
    requires |log| == |times| && Touched(log, k)
    ensures k in Replay(m, log, times) <==> k in Replay(m', log, times)
    ensures k in Replay(m, log, times) ==> Replay(m, log, times)[k] == Replay(m', log, times)[k]
    decreases |log|
  {
    var n := |log| - 1;
    if !Touches(log[n].cmd, k) {
      var e :| e in log && Touches(e.cmd, k);
      assert e in log[..n];
      ReplayForgets(m, m', log[..n], times[..n], k);
    }
  }

  /** The position of the last entry that touches k, -1 if none does. */
  function LastTouch(log: seq<Logged>, k: bytes): (i: int)
    ensures -1 <= i < |log|
    ensures i >= 0 ==> Touches(log[i].cmd, k)
    ensures forall j :: i < j < |log| ==> !Touches(log[j].cmd, k)
  {
    if log == [] then -1 else
    var n := |log| - 1;
    if Touches(log[n].cmd, k) then n else LastTouch(log[..n], k)
  }

  /** The last entry that touches a key decides what a replay holds there. */
  lemma {:induction false} ReplayLast(m: Table, log: seq<Logged>, times: seq<nat>, k: bytes, i: nat)
    requires |log| == |times| && i == LastTouch(log, k)
    ensures k in Replay(m, log, times) <==> log[i].cmd.Set?
    ensures log[i].cmd.Set? ==>
              Replay(m, log, times)[k] == Timed(log[i].cmd.value, Expiry(log[i].cmd.px, times[i]))
    decreases |log|
  {
    var n := |log| - 1;
    if !Touches(log[n].cmd, k) {
      ReplayLast(m, log[..n], times[..n], k, i);
    }
  }

  /** The same entry, its expiry up to `lag` later. */
  ghost predicate Lagging(a: Timed, b: Timed, lag: nat) {
    && a.value == b.value
    && (a.expires.None? <==> b.expires.None?)
    && (a.expires.Some? ==> a.expires.value <= b.expires.value <= a.expires.value + lag)
  }

  /** Applying the same log later gives the same keys and values, with expiries
      later by at most the lag of the applications. */
  lemma {:induction false} ReplayLags(log: seq<Logged>, early: seq<nat>, late: seq<nat>, lag: nat)
    requires |log| == |early| == |late|
    requires forall i :: 0 <= i < |log| ==> early[i] <= late[i] <= early[i] + lag
    ensures var a, b := Replay(map[], log, early), Replay(map[], log, late);
            a.Keys == b.Keys && forall k <- a :: Lagging(a[k], b[k], lag)
    decreases |log|
  {
    if log != [] {
      var n := |log| - 1;
      ReplayLags(log[..n], early[..n], late[..n], lag);
    }
  }

  // ------------------------------------------- store change and propagation

  /** Two clients' writes give the same store in either order. */
  ghost predicate Commute(c: Command, d: Command, now: nat) {
    forall m :: Apply(Apply(m, c, now), d, now) == Apply(Apply(m, d, now), c, now)
  }

  predicate Independent(c: Command, d: Command, now: nat) {
    match (c, d)
    case (Set(k, v, px), Set(j, w, qx)) => k != j || (v == w && Expiry(px, now) == Expiry(qx, now))
    case (Set(k, _, _), Del(keys)) => k !in keys
    case (Del(keys), Set(k, _, _)) => k !in keys
    case _ => true
  }

  /** The store is changed and the bytes are sent in two separate actions, so two
      concurrent writes may be sent in the other order than they were applied.
      A replica is unaffected exactly when the two writes are independent. */
  lemma RaceHarmlessExactly(c: Command, d: Command, now: nat)
    ensures Commute(c, d, now) <==> Independent(c, d, now)
  {
    if Independent(c, d, now) {
      forall m ensures Apply(Apply(m, c, now), d, now) == Apply(Apply(m, d, now), c, now) {
      }
    } else {
      var k := if c.Set? then c.key else d.key;
      var a, b := Apply(Apply(map[], c, now), d, now), Apply(Apply(map[], d, now), c, now);
      assert (k in a) != (k in b) || a[k] != b[k];
    }
  }

  /** What a log leaves at a key. */
  datatype Left = Kept | Removed | Put(entry: Timed)

  function LeftAt(log: seq<Logged>, times: seq<nat>, k: bytes): Left
    requires |log| == |times|
  {
    var i := LastTouch(log, k);
    if i < 0 then Kept
    else if log[i].cmd.Set? then Put(Timed(log[i].cmd.value, Expiry(log[i].cmd.px, times[i])))
    else Removed
  }

  lemma ReplayLeaves(m: Table, log: seq<Logged>, times: seq<nat>, k: bytes)
    requires |log| == |times|
    ensures match LeftAt(log, times, k)
            case Kept => (k in Replay(m, log, times) <==> k in m) && (k in m ==> Replay(m, log, times)[k] == m[k])
            case Removed => k !in Replay(m, log, times)
            case Put(e) => k in Replay(m, log, times) && Replay(m, log, times)[k] == e
  {
    hide Replay;
    var i := LastTouch(log, k);
    if i < 0 {
      assert !Touched(log, k);
      ReplayKeys(m, log, times, k);
    } else {
      ReplayLast(m, log, times, k, i);
    }
  }

  /** Two logs have the same effect on every store if and only if they leave the
      same at every key. */
  lemma SameReplayExactly(a: seq<Logged>, ta: seq<nat>, b: seq<Logged>, tb: seq<nat>)
    requires |a| == |ta| && |b| == |tb|
    ensures (forall m :: Replay(m, a, ta) == Replay(m, b, tb))
       <==> forall k :: LeftAt(a, ta, k) == LeftAt(b, tb, k)
  {
    hide Replay, LeftAt;
    if forall k :: LeftAt(a, ta, k) == LeftAt(b, tb, k) {
      forall m ensures Replay(m, a, ta) == Replay(m, b, tb) {
        SameEverywhere(m, a, ta, b, tb);
      }
    } else {
      var k :| LeftAt(a, ta, k) != LeftAt(b, tb, k);
      var m := Telling(a, ta, b, tb, k);
    }
  }

  lemma SameEverywhere(m: Table, a: seq<Logged>, ta: seq<nat>, b: seq<Logged>, tb: seq<nat>)
    requires |a| == |ta| && |b| == |tb| && forall k :: LeftAt(a, ta, k) == LeftAt(b, tb, k)
    ensures Replay(m, a, ta) == Replay(m, b, tb)
  {
    hide Replay, LeftAt;
    var x, y := Replay(m, a, ta), Replay(m, b, tb);
    forall k ensures (k in x <==> k in y) && (k in x ==> x[k] == y[k]) {
      ReplayLeaves(m, a, ta, k);
      ReplayLeaves(m, b, tb, k);
      assert LeftAt(a, ta, k) == LeftAt(b, tb, k);
    }
  }

  /** A store that tells two logs apart. */
  lemma Telling(a: seq<Logged>, ta: seq<nat>, b: seq<Logged>, tb: seq<nat>, k: bytes) returns (m: Table)
    requires |a| == |ta| && |b| == |tb| && LeftAt(a, ta, k) != LeftAt(b, tb, k)
    ensures Replay(m, a, ta) != Replay(m, b, tb)
  {
    hide Replay, LeftAt;
    m := if LeftAt(a, ta, k) == Removed || LeftAt(b, tb, k) == Removed then map[k := Timed([], None)] else map[];
    ReplayLeaves(m, a, ta, k);
    ReplayLeaves(m, b, tb, k);
  }

  /** Two writes leave the same at a key they both touch. */
  predicate SameEffect(e: Logged, f: Logged) {
    && (e.cmd.Set? <==> f.cmd.Set?)
    && (e.cmd.Set? && f.cmd.Set? ==>
          e.cmd.value == f.cmd.value && Expiry(e.cmd.px, e.at) == Expiry(f.cmd.px, f.at))
  }

  /** Any number of concurrent writes, sent in another order than they were
      applied, have the same effect on every store if and only if at every key the
      last write of both orders has the same effect. */
  lemma ReorderHarmlessExactly(applied: seq<Logged>, sent: seq<Logged>)
    requires multiset(applied) == multiset(sent)
    ensures (forall m :: Replay(m, applied, Ats(applied)) == Replay(m, sent, Ats(sent)))
       <==> forall k :: Touched(applied, k) ==> SameLast(applied, sent, k)
  {
    hide Replay, LeftAt, LastTouch, Touched, SameEffect;
    SameReplayExactly(applied, Ats(applied), sent, Ats(sent));
    forall k ensures LeftAt(applied, Ats(applied), k) == LeftAt(sent, Ats(sent), k)
                <==> (Touched(applied, k) ==> SameLast(applied, sent, k))
    {
      SameLastAt(applied, sent, k);
    }
  }

  /** Both orders touch k, and their last writes of it have the same effect. */
  predicate SameLast(a: seq<Logged>, b: seq<Logged>, k: bytes) {
    var i, j := LastTouch(a, k), LastTouch(b, k);
    i >= 0 && j >= 0 && SameEffect(a[i], b[j])
  }

  lemma SameLastAt(a: seq<Logged>, b: seq<Logged>, k: bytes)
    requires multiset(a) == multiset(b)
    ensures LeftAt(a, Ats(a), k) == LeftAt(b, Ats(b), k) <==> (Touched(a, k) ==> SameLast(a, b, k))
  {
    hide LastTouch;
    LastTouchFinds(a, k);
    LastTouchFinds(b, k);
    assert forall e :: e in a <==> e in multiset(a);
    assert forall e :: e in b <==> e in multiset(b);
  }

  lemma LastTouchFinds(log: seq<Logged>, k: bytes)
    ensures Touched(log, k) <==> LastTouch(log, k) >= 0
  {
    var i := LastTouch(log, k);
    if i >= 0 {
      assert log[i] in log;
    }
  }

  /** Two SETs of one key, sent the other way round: the replica ends with the
      value that the master has overwritten. */
  lemma SentInReverse(k: bytes, v: bytes, w: bytes, now: nat)
    requires v != w
    ensures var e, f := Logged([], Command.Set(k, v, None), now), Logged([], Command.Set(k, w, None), now);
            && k in Replay(map[], [e, f], [now, now]) && Replay(map[], [e, f], [now, now])[k].value == w
            && k in Replay(map[], [f, e], [now, now]) && Replay(map[], [f, e], [now, now])[k].value == v
  {
    var e, f := Logged([], Command.Set(k, v, None), now), Logged([], Command.Set(k, w, None), now);
    ReplayAppend(map[], [e], [now], f, now);
    ReplayAppend(map[], [f], [now], e, now);
    assert [e] + [f] == [e, f] && [f] + [e] == [f, e] && [now] + [now] == [now, now];
  }
}
