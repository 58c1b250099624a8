/** Decoding a frame into a command, and the key a command is routed by. */
module Commands {
  import opened Bytes
  import opened Resp

  datatype ClusterCommand =
    | KeySlot(key: bytes)
    | ClusterInfo
    | ClusterNodes
    | ClusterSlots
    | Meet(ip: bytes, port: nat)
    | AddSlots(slots: seq<nat>)

  datatype Command =
    | Ping(message: Option<bytes>)
    | Echo(text: bytes)
    | Get(key: bytes)
    | Set(key: bytes, value: bytes, px: Option<nat>)
    | Del(keys: seq<bytes>)
    | Exists(keys: seq<bytes>)
    | Keys(pattern: bytes)
    | Info(section: Option<bytes>)
    | ReplConf(args: seq<bytes>)
    | Psync(replId: bytes, offset: bytes)
    | Auth(username: Option<bytes>, password: bytes)
    | Cluster(sub: ClusterCommand)
    | Quit
    | CommandList

  datatype Reason =
    | NotAnArray
    | EmptyArray
    | NameNotText
    | WrongArity
    | KeyNotText
    | BadPort
    | BadSlot
    | Unknown(name: bytes)

  datatype Decoded = Ok(cmd: Command) | Err(reason: Reason)

  /** `as_str`: texts, and bulk strings that are UTF-8. */
  function AsStr(v: Value): (r: Option<bytes>)
    ensures r.Some? && v.BulkString? ==> Utf8(r.value)
  {
    match v
    case SimpleString(s) => Some(s)
    case BulkString(b) => if Utf8(b) then Some(b) else None
    case _ => None
  }

  function Or(o: Option<bytes>, default: bytes): bytes {
    if o.Some? then o.value else default
  }

  function TextAt(items: seq<Value>, i: nat): Option<bytes> {
    if i < |items| then AsStr(items[i]) else None
  }

  /** The elements that are texts, in order; the others are dropped. */
  function Texts(items: seq<Value>): seq<bytes> {
    if items == [] then []
    else (match AsStr(items[0]) case Some(s) => [s] case None => []) + Texts(items[1..])
  }

  /** The options of SET from position idx on, given the expiry read so far. */
  function SetOptions(items: seq<Value>, idx: nat, px: Option<nat>): Option<nat>
    requires idx <= |items|
    decreases |items| - idx
  {
    if idx == |items| then px
    else if Upper(Or(AsStr(items[idx]), "")) == "PX" && idx + 1 < |items| then
      SetOptions(items, idx + 2,
                 match AsStr(items[idx + 1]) case Some(ms) => ParseUnsigned(ms, U64_MAX) case None => px)
    else SetOptions(items, idx + 1, px)
  }

  predicate IsPx(v: Value) {
    Upper(Or(AsStr(v), "")) == "PX"
  }

  /** How many items in a row say PX just before position i. */
  function PxRun(items: seq<Value>, i: nat): nat
    requires i <= |items|
  {
    if i <= 3 || !IsPx(items[i - 1]) then 0 else 1 + PxRun(items, i - 1)
  }

  /** A PX followed by a text. Every second PX in a row is the argument of the
      one before it, and so not an option itself. */
  predicate PxOptionAt(items: seq<Value>, i: int) {
    && 3 <= i && i + 1 < |items| && IsPx(items[i]) && PxRun(items, i) % 2 == 0
    && AsStr(items[i + 1]).Some?
  }

  /** px is what the last PX option before position n says, even if that is not a
      number; None if there is no such option. */
  ghost predicate LastPxDecides(items: seq<Value>, n: nat, px: Option<nat>) {
    if exists i :: i < n && PxOptionAt(items, i) then
      exists i :: && i < n && PxOptionAt(items, i) && (forall j :: j < n && PxOptionAt(items, j) ==> j <= i)
                  && px == ParseUnsigned(AsStr(items[i + 1]).value, U64_MAX)
    else px == None
  }

  lemma NotAnOption(items: seq<Value>, n: nat, px: Option<nat>)
    requires LastPxDecides(items, n, px) && !PxOptionAt(items, n)
    ensures LastPxDecides(items, n + 1, px)
  {
    hide PxOptionAt, ParseUnsigned, AsStr;
    if i :| i < n && PxOptionAt(items, i) && (forall j :: j < n && PxOptionAt(items, j) ==> j <= i) {
      assert forall j :: j < n + 1 && PxOptionAt(items, j) ==> j <= i;
    }
  }

  lemma AnOption(items: seq<Value>, n: nat)
    requires PxOptionAt(items, n)
    ensures LastPxDecides(items, n + 1, ParseUnsigned(AsStr(items[n + 1]).value, U64_MAX))
  {
    hide ParseUnsigned, AsStr, PxRun, IsPx;
    assert forall j :: j < n + 1 && PxOptionAt(items, j) ==> j <= n;
  }

  /** What the options of SET mean, by position. */
  lemma {:induction false} SetOptionsMeans(items: seq<Value>, idx: nat, px: Option<nat>)
    requires 3 <= idx <= |items| && PxRun(items, idx) % 2 == 0 && LastPxDecides(items, idx, px)
    ensures LastPxDecides(items, |items|, SetOptions(items, idx, px))
    decreases |items| - idx
  {
    hide AsStr, ParseUnsigned, LastPxDecides;
    if idx < |items| {
      if IsPx(items[idx]) && idx + 1 < |items| {
        var ms := AsStr(items[idx + 1]);
        var next := if ms.Some? then ParseUnsigned(ms.value, U64_MAX) else px;
        if ms.Some? {
          AnOption(items, idx);
        } else {
          NotAnOption(items, idx, px);
        }
        assert PxRun(items, idx + 1) % 2 == 1;
        NotAnOption(items, idx + 1, next);
        SetOptionsMeans(items, idx + 2, next);
      } else {
        NotAnOption(items, idx, px);
        if idx + 1 < |items| {
          SetOptionsMeans(items, idx + 1, px);
        }
      }
    }
  }

  /** The option loop of the SET arm: the last PX option decides. */
  method ReadSetOptions(items: seq<Value>) returns (px: Option<nat>)
    requires |items| >= 3
    ensures px == SetOptions(items, 3, None)
    ensures LastPxDecides(items, |items|, px)
  {
    assert LastPxDecides(items, 3, None);
    SetOptionsMeans(items, 3, None);
    px := None;
    var idx := 3;
    while idx < |items|
      invariant 3 <= idx <= |items|
      invariant SetOptions(items, idx, px) == SetOptions(items, 3, None)
    {
      var opt := Upper(Or(AsStr(items[idx]), ""));
      if opt == "PX" && idx + 1 < |items| {
        var ms := AsStr(items[idx + 1]);
        if ms.Some? {
          px := ParseUnsigned(ms.value, U64_MAX);
        }
        idx := idx + 2;
      } else {
        idx := idx + 1;
      }
    }
  }

  function DecodeSet(items: seq<Value>): Decoded {
    if |items| < 3 then Err(WrongArity)
    else match AsStr(items[1])
      case None => Err(KeyNotText)
      case Some(key) =>
        var value := if items[2].BulkString? then items[2].data else Or(AsStr(items[2]), "");
        Ok(Set(key, value, SetOptions(items, 3, None)))
  }

  function ParseSlots(items: seq<Value>): Option<seq<nat>> {
    if items == [] then Some([]) else
    match AsStr(items[0])
    case None => None
    case Some(s) =>
      match (ParseUnsigned(s, 0xFFFF), ParseSlots(items[1..]))
      case (Some(n), Some(ns)) => Some([n] + ns)
      case _ => None
  }

  function DecodeCluster(items: seq<Value>): Decoded {
    if |items| < 2 then Err(WrongArity)
    else match AsStr(items[1])
      case None => Err(NameNotText)
      case Some(s) =>
        var sub := Upper(s);
        if sub == "KEYSLOT" then
          if |items| < 3 then Err(WrongArity) else Ok(Cluster(KeySlot(Or(AsStr(items[2]), ""))))
        else if sub == "INFO" then Ok(Cluster(ClusterInfo))
        else if sub == "NODES" then Ok(Cluster(ClusterNodes))
        else if sub == "SLOTS" then Ok(Cluster(ClusterSlots))
        else if sub == "MEET" then
          if |items| < 4 then Err(WrongArity)
          else match AsStr(items[3])
            case None => Err(BadPort)
            case Some(p) =>
              match ParseUnsigned(p, 0xFFFF)
              case None => Err(BadPort)
              case Some(port) => Ok(Cluster(Meet(Or(AsStr(items[2]), "127.0.0.1"), port)))
        else if sub == "ADDSLOTS" then
          if |items| < 3 then Err(WrongArity)
          else match ParseSlots(items[2..])
            case None => Err(BadSlot)
            case Some(slots) => Ok(Cluster(AddSlots(slots)))
        else Err(Unknown(sub))
  }

  function DecodeAuth(items: seq<Value>): Decoded {
    if |items| == 2 then Ok(Auth(None, Or(AsStr(items[1]), "")))
    else if |items| >= 3 then Ok(Auth(AsStr(items[1]), Or(AsStr(items[2]), "")))
    else Err(WrongArity)
  }

  /** `Command::from_value`. */
  function FromValue(v: Value): Decoded {
    if !v.Array? then Err(NotAnArray)
    else if v.items == [] then Err(EmptyArray)
    else match AsStr(v.items[0])
      case None => Err(NameNotText)
      case Some(name) => Decode(Upper(name), v.items)
  }

  function Decode(name: bytes, items: seq<Value>): Decoded
    requires items != []
  {
    if name == "PING" then Ok(Ping(TextAt(items, 1)))
    else if name == "ECHO" then
      if |items| < 2 then Err(WrongArity) else Ok(Echo(Or(AsStr(items[1]), "")))
    else if name == "GET" then
      if |items| < 2 then Err(WrongArity)
      else (match AsStr(items[1]) case None => Err(KeyNotText) case Some(key) => Ok(Get(key)))
    else if name == "SET" then DecodeSet(items)
    else if name == "DEL" then
      if |items| < 2 then Err(WrongArity) else Ok(Del(Texts(items[1..])))
    else if name == "EXISTS" then
      if |items| < 2 then Err(WrongArity) else Ok(Exists(Texts(items[1..])))
    else if name == "KEYS" then Ok(Keys(Or(TextAt(items, 1), "*")))
    else if name == "INFO" then Ok(Info(TextAt(items, 1)))
    else if name == "REPLCONF" then Ok(ReplConf(Texts(items[1..])))
    else if name == "PSYNC" then Ok(Psync(Or(TextAt(items, 1), "?"), Or(TextAt(items, 2), "-1")))
    else if name == "AUTH" then DecodeAuth(items)
    else if name == "CLUSTER" then DecodeCluster(items)
    else if name == "QUIT" then Ok(Quit)
    else if name == "COMMAND" then Ok(CommandList)
    else Err(Unknown(name))
  }

  /** The key that decides which cluster node serves a command. */
  function TargetKey(c: Command): Option<bytes> {
    match c
    case Get(key) => Some(key)
    case Set(key, _, _) => Some(key)
    case Del(keys) => if keys == [] then None else Some(keys[0])
    case Exists(keys) => if keys == [] then None else Some(keys[0])
    case _ => None
  }

  // ------------------------------------------------------- client encoding

  /** The value carries the text s, as a simple string or as a bulk string. */
  predicate Says(v: Value, s: bytes) {
    v == SimpleString(s) || (v == BulkString(s) && Utf8(s))
  }

  lemma SaysIsText(v: Value)
    ensures forall s :: Says(v, s) <==> AsStr(v) == Some(s)
  {
    hide Utf8;
  }

  /** A name spelt like W, in any case, is read as W. */
  lemma Spelt(name: bytes, W: bytes)
    requires SameLetters(name, W) && forall i :: 0 <= i < |W| ==> !('a' <= W[i] <= 'z')
    ensures Upper(name) == W
  {
    CaseForgotten(name, W);
    assert Upper(W) == W;
  }

  /** The frame a client sends for SET; `name` and `opt` are its spellings of the
      command and of the option. */
  function EncodeSetAs(name: bytes, opt: bytes, key: bytes, value: bytes, px: Option<nat>): Value {
    Array([BulkString(name), BulkString(key), BulkString(value)]
          + if px.Some? then [BulkString(opt), BulkString(Decimal(px.value))] else [])
  }

  function EncodeSet(key: bytes, value: bytes, px: Option<nat>): Value {
    EncodeSetAs("SET", "PX", key, value, px)
  }

  lemma AsciiText(s: bytes)
    requires Ascii(s)
    ensures AsStr(BulkString(s)) == Some(s)
  {
    Utf8AsciiPrefix(s, []);
    assert s + [] == s;
  }

  /** A spelling of an ASCII name is ASCII. */
  lemma SpeltAscii(name: bytes, W: bytes)
    requires SameLetters(name, W) && Ascii(W)
    ensures Ascii(name)
  {
  }

  lemma PxOption(items: seq<Value>, opt: bytes, n: nat)
    requires |items| == 5 && n <= U64_MAX && SameLetters(opt, "PX")
    requires items[3] == BulkString(opt) && items[4] == BulkString(Decimal(n))
    ensures SetOptions(items, 3, None) == Some(n)
  {
    hide Utf8, DigitsValue, Upper;
    SpeltAscii(opt, "PX");
    AsciiText(opt);
    AsciiText(Decimal(n));
    DecimalValue(n);
    Spelt(opt, "PX");
    assert IsDigit(Decimal(n)[0]);
    assert SetOptions(items, 5, Some(n)) == Some(n);
  }

  /** SET survives encoding, with its expiry and with any payload bytes, whatever
      the case of its name and option. */
  lemma SetDecodes(name: bytes, opt: bytes, key: bytes, value: bytes, px: Option<nat>)
    requires SameLetters(name, "SET") && SameLetters(opt, "PX") && Utf8(key)
    requires px.Some? ==> px.value <= U64_MAX
    ensures FromValue(EncodeSetAs(name, opt, key, value, px)) == Ok(Set(key, value, px))
  {
    hide Utf8, SetOptions, DecodeCluster, DecodeAuth, Texts, Decimal, Upper;
    var items := EncodeSetAs(name, opt, key, value, px).items;
    SpeltAscii(name, "SET");
    AsciiText(name);
    Spelt(name, "SET");
    if px.Some? {
      PxOption(items, opt, px.value);
    } else {
      NoOptions(items);
    }
  }

  lemma NoOptions(items: seq<Value>)
    requires |items| == 3
    ensures SetOptions(items, 3, None) == None
  {
  }

  function Bulks(keys: seq<bytes>): seq<Value> {
    if keys == [] then [] else [BulkString(keys[0])] + Bulks(keys[1..])
  }

  lemma {:induction false} BulksAreTexts(keys: seq<bytes>)
    requires forall k <- keys :: Utf8(k)
    ensures Texts(Bulks(keys)) == keys
  {
    hide Utf8;
    if keys != [] {
      BulksAreTexts(keys[1..]);
      assert Bulks(keys)[1..] == Bulks(keys[1..]);
    }
  }

  /** DEL survives encoding, with all its keys in order. */
  lemma DelDecodes(name: bytes, keys: seq<bytes>)
    requires SameLetters(name, "DEL") && keys != [] && forall k <- keys :: Utf8(k)
    ensures FromValue(Array([BulkString(name)] + Bulks(keys))) == Ok(Del(keys))
  {
    hide Utf8, DecodeSet, DecodeCluster, DecodeAuth, Texts, Upper;
    var items := [BulkString(name)] + Bulks(keys);
    SpeltAscii(name, "DEL");
    AsciiText(name);
    Spelt(name, "DEL");
    assert items[1..] == Bulks(keys);
    BulksAreTexts(keys);
  }
}
