/** The key-value store as one timed map: what clients can observe. */
module Store {
  import opened Bytes
  import opened Commands

  datatype Timed = Timed(value: bytes, expires: Option<nat>)

  type Table = map<bytes, Timed>

  predicate Live(t: Timed, now: nat) {
    t.expires.None? || now < t.expires.value
  }

  /** What a client can read at a moment. */
  function LiveView(m: Table, now: nat): Table {
    map k | k in m && Live(m[k], now) :: m[k]
  }

  function Expiry(px: Option<nat>, now: nat): Option<nat> {
    if px.Some? then Some(now + px.value) else None
  }

  function ToSet(keys: seq<bytes>): set<bytes> {
    set k | k in keys
  }

  /** The effect of a command on the map; only SET and DEL have one. */
  function Apply(m: Table, c: Command, now: nat): Table {
    match c
    case Set(key, value, px) => m[key := Timed(value, Expiry(px, now))]
    case Del(keys) => m - ToSet(keys)
    case _ => m
  }

  /** The keys a command writes or deletes. */
  function Names(c: Command): set<bytes> {
    match c
    case Set(key, _, _) => {key}
    case Del(keys) => ToSet(keys)
    case _ => {}
  }

  /** A write makes up for keys missing before it, at the keys it names. */
  lemma ApplyMissing(m: Table, missing: set<bytes>, c: Command, now: nat)
    ensures Apply(m - missing, c, now) == Apply(m, c, now) - (missing - Names(c))
  {
  }

  /** `actual` is `ideal` after some entries that are expired were removed. */
  ghost predicate Trimmed(actual: Table, ideal: Table, now: nat) {
    && (forall k :: k in actual ==> k in ideal && actual[k] == ideal[k])
    && (forall k :: k in ideal && k !in actual ==> !Live(ideal[k], now))
  }

  /** Removing expired entries, and the passing of time, cannot be observed. */
  lemma TrimmedUnseen(actual: Table, ideal: Table, now: nat, later: nat)
    requires Trimmed(actual, ideal, now) && now <= later
    ensures Trimmed(actual, ideal, later)
    ensures LiveView(actual, later) == LiveView(ideal, later)
  {
  }

  lemma TrimmedMinus(actual: Table, ideal: Table, keys: set<bytes>, now: nat)
    requires Trimmed(actual, ideal, now)
    ensures Trimmed(actual - keys, ideal - keys, now)
  {
  }

  /** Writes commute with the removal of expired entries. */
  lemma TrimmedApply(actual: Table, ideal: Table, c: Command, now: nat)
    requires Trimmed(actual, ideal, now)
    ensures Trimmed(Apply(actual, c, now), Apply(ideal, c, now), now)
  {
  }
}
