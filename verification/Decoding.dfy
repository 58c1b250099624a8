/** What a client may send for each command: names in any case, arguments as simple
    or bulk strings, too few arguments, arguments that are not text, and names that
    nobody knows. */
module Decoding {
  import opened Bytes
  import opened Resp
  import opened Commands

  /** A frame whose first element spells W. */
  predicate Calls(v: Value, W: bytes) {
    v.Array? && v.items != [] && AsStr(v.items[0]).Some? && SameLetters(AsStr(v.items[0]).value, W)
  }

  /** W is in upper case. */
  predicate Capital(W: bytes) {
    forall i :: 0 <= i < |W| ==> !('a' <= W[i] <= 'z')
  }

  lemma CallDecodes(v: Value, W: bytes)
    requires Calls(v, W) && Capital(W)
    ensures FromValue(v) == Decode(W, v.items)
  {
    hide Decode, Upper, AsStr;
    Spelt(AsStr(v.items[0]).value, W);
  }

  /** Commands are the same in any case: two frames with the same arguments, whose
      names differ only in the case of ASCII letters, decode alike. */
  lemma NamesAlike(a: Value, b: Value, x: bytes, y: bytes, args: seq<Value>)
    requires Says(a, x) && Says(b, y) && SameLetters(x, y)
    ensures FromValue(Array([a] + args)) == FromValue(Array([b] + args))
  {
    hide Utf8, Upper, Decode;
    CaseForgotten(x, y);
    OnlyArguments(Upper(x), [a] + args, [b] + args);
  }

  /** Beyond the name, only the arguments matter. */
  lemma OnlyArguments(name: bytes, xs: seq<Value>, ys: seq<Value>)
    requires xs != [] && |xs| == |ys| && xs[1..] == ys[1..]
    ensures Decode(name, xs) == Decode(name, ys)
  {
    hide AsStr, Upper, Texts, ParseSlots, ParseUnsigned;
    assert forall i :: 1 <= i < |xs| ==> xs[i] == xs[1..][i - 1] == ys[i];
    if |xs| >= 2 {
      assert xs[2..] == xs[1..][1..] == ys[2..];
    }
    if |xs| >= 3 {
      SameOptions(xs, ys, 3, None);
    }
  }

  lemma {:induction false} SameOptions(xs: seq<Value>, ys: seq<Value>, idx: nat, px: Option<nat>)
    requires 1 <= idx <= |xs| == |ys| && forall i :: 1 <= i < |xs| ==> xs[i] == ys[i]
    ensures SetOptions(xs, idx, px) == SetOptions(ys, idx, px)
    decreases |xs| - idx
  {
    hide AsStr, Upper, ParseUnsigned;
    if idx < |xs| {
      if Upper(Or(AsStr(xs[idx]), "")) == "PX" && idx + 1 < |xs| {
        var next := match AsStr(xs[idx + 1]) case Some(ms) => ParseUnsigned(ms, U64_MAX) case None => px;
        SameOptions(xs, ys, idx + 2, next);
      } else {
        SameOptions(xs, ys, idx + 1, px);
      }
    }
  }

  // ------------------------------------------------------------ the data commands

  lemma GetDecodes(v: Value, key: bytes)
    requires Calls(v, "GET") && |v.items| >= 2 && Says(v.items[1], key)
    ensures FromValue(v) == Ok(Get(key))
  {
    hide Utf8;
    CallDecodes(v, "GET");
    SaysIsText(v.items[1]);
  }

  /** SET takes any bulk string, or the text of a simple string, for its value, and
      nothing else; the last PX option decides the expiry. */
  lemma SetMeans(v: Value, key: bytes)
    requires Calls(v, "SET") && |v.items| >= 3 && Says(v.items[1], key)
    ensures var d, x := FromValue(v), v.items[2];
            && d.Ok? && d.cmd.Set? && d.cmd.key == key
            && (x.BulkString? ==> d.cmd.value == x.data)
            && (x.SimpleString? ==> d.cmd.value == x.text)
            && (!x.BulkString? && !x.SimpleString? ==> d.cmd.value == [])
            && LastPxDecides(v.items, |v.items|, d.cmd.px)
  {
    hide Utf8, SetOptions, LastPxDecides, PxRun;
    CallDecodes(v, "SET");
    SaysIsText(v.items[1]);
    NothingBefore(v.items);
    SetOptionsMeans(v.items, 3, None);
  }

  lemma NothingBefore(items: seq<Value>)
    requires |items| >= 3
    ensures LastPxDecides(items, 3, None) && PxRun(items, 3) % 2 == 0
  {
  }

  /** PX in any case is the option, and nothing else is. */
  lemma PxSpelt(v: Value)
    ensures IsPx(v) <==> exists s :: Says(v, s) && SameLetters(s, "PX")
  {
    hide Utf8, Upper;
    SaysIsText(v);
    if IsPx(v) {
      NotEmpty();
      var s := AsStr(v).value;
      CaseForgotten(s, "PX");
      CapitalStays("PX");
      assert Says(v, s) && SameLetters(s, "PX");
    }
    if s :| Says(v, s) && SameLetters(s, "PX") {
      Spelt(s, "PX");
    }
  }

  lemma NotEmpty()
    ensures Upper("") != "PX"
  {
  }

  lemma CapitalStays(W: bytes)
    requires Capital(W)
    ensures Upper(W) == W
  {
  }

  /** The arguments that are text, in order: each text counts, nothing else does. */
  lemma {:induction false} TextsAppend(a: seq<Value>, b: seq<Value>)
    ensures Texts(a + b) == Texts(a) + Texts(b)
  {
    hide AsStr;
    if a == [] {
      assert a + b == b;
    } else {
      assert (a + b)[1..] == a[1..] + b;
      TextsAppend(a[1..], b);
    }
  }

  lemma TextsOne(v: Value)
    ensures forall s :: Says(v, s) ==> Texts([v]) == [s]
    ensures (forall s :: !Says(v, s)) ==> Texts([v]) == []
  {
    hide AsStr;
    SaysIsText(v);
    assert [v][1..] == [];
  }

  /** DEL, EXISTS and REPLCONF take every text among their arguments. */
  lemma ListsDecode(v: Value)
    requires v.Array? && v.items != []
    ensures Calls(v, "DEL") && |v.items| >= 2 ==> FromValue(v) == Ok(Del(Texts(v.items[1..])))
    ensures Calls(v, "EXISTS") && |v.items| >= 2 ==> FromValue(v) == Ok(Exists(Texts(v.items[1..])))
    ensures Calls(v, "REPLCONF") ==> FromValue(v) == Ok(ReplConf(Texts(v.items[1..])))
  {
    hide Decode, Calls;
    if Calls(v, "DEL") {
      CallDecodes(v, "DEL");
      ArmList(v.items);
    } else if Calls(v, "EXISTS") {
      CallDecodes(v, "EXISTS");
      ArmList(v.items);
    } else if Calls(v, "REPLCONF") {
      CallDecodes(v, "REPLCONF");
      ArmList(v.items);
    }
    OneName(v, "DEL", "EXISTS");
    OneName(v, "DEL", "REPLCONF");
    OneName(v, "EXISTS", "REPLCONF");
  }

  lemma ArmList(items: seq<Value>)
    requires items != []
    ensures |items| >= 2 ==> Decode("DEL", items) == Ok(Del(Texts(items[1..])))
    ensures |items| >= 2 ==> Decode("EXISTS", items) == Ok(Exists(Texts(items[1..])))
    ensures Decode("REPLCONF", items) == Ok(ReplConf(Texts(items[1..])))
  {
    hide Texts;
  }

  lemma OneName(v: Value, W: bytes, X: bytes)
    requires |W| != |X|
    ensures !(Calls(v, W) && Calls(v, X))
  {
  }

  // -------------------------------------------------------- the other commands

  /** PSYNC names a replication id and an offset, or asks from the start. */
  lemma PsyncDecodes(v: Value)
    requires Calls(v, "PSYNC")
    ensures FromValue(v).Ok? && FromValue(v).cmd.Psync?
    ensures forall id :: |v.items| >= 2 && Says(v.items[1], id) ==> FromValue(v).cmd.replId == id
    ensures forall off :: |v.items| >= 3 && Says(v.items[2], off) ==> FromValue(v).cmd.offset == off
    ensures |v.items| < 2 || (forall s :: !Says(v.items[1], s)) ==> FromValue(v).cmd.replId == "?"
    ensures |v.items| < 3 || (forall s :: !Says(v.items[2], s)) ==> FromValue(v).cmd.offset == "-1"
  {
    hide Utf8;
    CallDecodes(v, "PSYNC");
    if |v.items| >= 2 {
      SaysIsText(v.items[1]);
    }
    if |v.items| >= 3 {
      SaysIsText(v.items[2]);
    }
  }

  /** AUTH with one argument gives a password, with more a user and a password. */
  lemma AuthDecodes(v: Value, p: bytes)
    requires Calls(v, "AUTH")
    ensures |v.items| == 2 && Says(v.items[1], p) ==> FromValue(v) == Ok(Auth(None, p))
    ensures forall u :: |v.items| >= 3 && Says(v.items[1], u) && Says(v.items[2], p) ==>
              FromValue(v) == Ok(Auth(Some(u), p))
    ensures |v.items| == 1 ==> FromValue(v) == Err(WrongArity)
    ensures |v.items| == 2 && (forall s :: !Says(v.items[1], s)) ==> FromValue(v) == Ok(Auth(None, ""))
    ensures |v.items| >= 3 && (forall s :: !Says(v.items[1], s)) && Says(v.items[2], p) ==>
              FromValue(v) == Ok(Auth(None, p))
    ensures |v.items| >= 3 && (forall s :: !Says(v.items[2], s)) ==>
              FromValue(v).Ok? && FromValue(v).cmd.Auth? && FromValue(v).cmd.password == ""
  {
    hide Utf8;
    CallDecodes(v, "AUTH");
    if |v.items| >= 2 {
      SaysIsText(v.items[1]);
    }
    if |v.items| >= 3 {
      SaysIsText(v.items[2]);
    }
  }

  /** PING and INFO take an optional text, KEYS a pattern or everything. */
  lemma OptionalText(v: Value)
    requires v.Array? && v.items != []
    ensures Calls(v, "PING") && |v.items| == 1 ==> FromValue(v) == Ok(Ping(None))
    ensures Calls(v, "INFO") && |v.items| == 1 ==> FromValue(v) == Ok(Info(None))
    ensures Calls(v, "KEYS") && |v.items| == 1 ==> FromValue(v) == Ok(Keys("*"))
    ensures forall s :: |v.items| >= 2 && Says(v.items[1], s) ==>
              && (Calls(v, "PING") ==> FromValue(v) == Ok(Ping(Some(s))))
              && (Calls(v, "INFO") ==> FromValue(v) == Ok(Info(Some(s))))
              && (Calls(v, "KEYS") ==> FromValue(v) == Ok(Keys(s)))
              && (Calls(v, "ECHO") ==> FromValue(v) == Ok(Echo(s)))
    ensures |v.items| >= 2 && (forall s :: !Says(v.items[1], s)) ==>
              && (Calls(v, "PING") ==> FromValue(v) == Ok(Ping(None)))
              && (Calls(v, "INFO") ==> FromValue(v) == Ok(Info(None)))
              && (Calls(v, "KEYS") ==> FromValue(v) == Ok(Keys("*")))
              && (Calls(v, "ECHO") ==> FromValue(v) == Ok(Echo("")))
  {
    hide Utf8, Decode, Calls, AsStr;
    if Calls(v, "PING") {
      CallDecodes(v, "PING");
    }
    if Calls(v, "INFO") {
      CallDecodes(v, "INFO");
    }
    if Calls(v, "KEYS") {
      CallDecodes(v, "KEYS");
    }
    if Calls(v, "ECHO") {
      CallDecodes(v, "ECHO");
    }
    ArmText(v.items);
    if |v.items| >= 2 {
      SaysIsText(v.items[1]);
    }
  }

  lemma ArmText(items: seq<Value>)
    requires items != []
    ensures Decode("PING", items) == Ok(Ping(TextAt(items, 1)))
    ensures Decode("INFO", items) == Ok(Info(TextAt(items, 1)))
    ensures Decode("KEYS", items) == Ok(Keys(Or(TextAt(items, 1), "*")))
    ensures |items| >= 2 ==> Decode("ECHO", items) == Ok(Echo(Or(AsStr(items[1]), "")))
  {
    hide AsStr;
  }

  /** QUIT and COMMAND look at nothing else. */
  lemma BareDecodes(v: Value)
    ensures Calls(v, "QUIT") ==> FromValue(v) == Ok(Quit)
    ensures Calls(v, "COMMAND") ==> FromValue(v) == Ok(CommandList)
  {
    hide AsStr, Texts;
    if Calls(v, "QUIT") {
      CallDecodes(v, "QUIT");
    }
    if Calls(v, "COMMAND") {
      CallDecodes(v, "COMMAND");
    }
  }

  // ----------------------------------------------------------- cluster commands

  /** A CLUSTER frame whose second element spells the subcommand. */
  predicate CallsCluster(v: Value, W: bytes) {
    Calls(v, "CLUSTER") && |v.items| >= 2 && AsStr(v.items[1]).Some? && SameLetters(AsStr(v.items[1]).value, W)
  }

  lemma ClusterDecodes(v: Value, W: bytes)
    requires CallsCluster(v, W) && Capital(W)
    ensures FromValue(v) == DecodeCluster(v.items) && AsStr(v.items[1]).Some?
    ensures Upper(AsStr(v.items[1]).value) == W
  {
    hide AsStr, Upper, Texts;
    CallDecodes(v, "CLUSTER");
    Spelt(AsStr(v.items[1]).value, W);
  }

  /** MEET with an address that is not text means this host. */
  lemma MeetDecodes(v: Value, ip: bytes, port: nat)
    requires CallsCluster(v, "MEET") && |v.items| >= 4 && port <= 0xFFFF
    requires Says(v.items[3], Decimal(port))
    ensures Says(v.items[2], ip) ==> FromValue(v) == Ok(Cluster(Meet(ip, port)))
    ensures (forall s :: !Says(v.items[2], s)) ==> FromValue(v) == Ok(Cluster(Meet("127.0.0.1", port)))
  {
    hide Utf8, Upper, FromValue, ParseUnsigned, Decimal;
    ClusterDecodes(v, "MEET");
    SaysIsText(v.items[2]);
    SaysIsText(v.items[3]);
    DecimalParses(port, 0xFFFF);
  }

  lemma DecimalParses(n: nat, max: nat)
    requires n <= max
    ensures ParseUnsigned(Decimal(n), max) == Some(n)
  {
    hide DigitsValue;
    DecimalValue(n);
    assert IsDigit(Decimal(n)[0]);
  }

  /** The arguments are these numbers, in decimal. */
  predicate Numbers(items: seq<Value>, slots: seq<nat>) {
    |items| == |slots| && forall i :: 0 <= i < |slots| ==> slots[i] <= 0xFFFF && Says(items[i], Decimal(slots[i]))
  }

  lemma {:induction false} SlotsParse(items: seq<Value>, slots: seq<nat>)
    requires Numbers(items, slots)
    ensures ParseSlots(items) == Some(slots)
  {
    hide Utf8, ParseUnsigned, Decimal;
    if items != [] {
      SaysIsText(items[0]);
      DecimalParses(slots[0], 0xFFFF);
      SlotsParse(items[1..], slots[1..]);
      assert [slots[0]] + slots[1..] == slots;
    }
  }

  lemma AddSlotsDecodes(v: Value, slots: seq<nat>)
    requires CallsCluster(v, "ADDSLOTS") && slots != [] && Numbers(v.items[2..], slots)
    ensures FromValue(v) == Ok(Cluster(AddSlots(slots)))
  {
    hide Upper, AsStr, FromValue, ParseSlots, Numbers;
    ClusterDecodes(v, "ADDSLOTS");
    SlotsParse(v.items[2..], slots);
    assert |v.items[2..]| == |slots| by { NumbersMany(v.items[2..], slots); }
  }

  lemma NumbersMany(items: seq<Value>, slots: seq<nat>)
    requires Numbers(items, slots)
    ensures |items| == |slots|
  {
    hide Utf8;
  }

  /** One slot that is not a number makes the whole command an error. */
  lemma {:induction false} BadSlotFails(v: Value, i: nat)
    requires CallsCluster(v, "ADDSLOTS") && 2 <= i < |v.items|
    requires AsStr(v.items[i]).None? || ParseUnsigned(AsStr(v.items[i]).value, 0xFFFF).None?
    ensures FromValue(v) == Err(BadSlot)
  {
    hide Upper, AsStr, FromValue, ParseUnsigned;
    ClusterDecodes(v, "ADDSLOTS");
    BadSlotAt(v.items[2..], i - 2);
  }

  lemma {:induction false} BadSlotAt(items: seq<Value>, i: nat)
    requires i < |items| && (AsStr(items[i]).None? || ParseUnsigned(AsStr(items[i]).value, 0xFFFF).None?)
    ensures ParseSlots(items).None?
  {
    hide AsStr, ParseUnsigned;
    if i > 0 {
      BadSlotAt(items[1..], i - 1);
    }
  }

  lemma ClusterQueries(v: Value)
    ensures forall k :: CallsCluster(v, "KEYSLOT") && |v.items| >= 3 && Says(v.items[2], k) ==>
              FromValue(v) == Ok(Cluster(KeySlot(k)))
    ensures CallsCluster(v, "KEYSLOT") && |v.items| >= 3 && (forall s :: !Says(v.items[2], s)) ==>
              FromValue(v) == Ok(Cluster(KeySlot("")))
    ensures CallsCluster(v, "INFO") ==> FromValue(v) == Ok(Cluster(ClusterInfo))
    ensures CallsCluster(v, "NODES") ==> FromValue(v) == Ok(Cluster(ClusterNodes))
    ensures CallsCluster(v, "SLOTS") ==> FromValue(v) == Ok(Cluster(ClusterSlots))
  {
    hide Utf8, Upper, FromValue, SameLetters, AsStr;
    if CallsCluster(v, "KEYSLOT") {
      ClusterDecodes(v, "KEYSLOT");
      if |v.items| >= 3 {
        SaysIsText(v.items[2]);
      }
    }
    if CallsCluster(v, "INFO") {
      ClusterDecodes(v, "INFO");
    }
    if CallsCluster(v, "NODES") {
      ClusterDecodes(v, "NODES");
    }
    if CallsCluster(v, "SLOTS") {
      ClusterDecodes(v, "SLOTS");
    }
  }

  // ------------------------------------------------------------------- errors

  /** Fewer elements than a command needs, its name included. */
  lemma TooFew(v: Value)
    ensures Calls(v, "GET") && |v.items| < 2 ==> FromValue(v) == Err(WrongArity)
    ensures Calls(v, "ECHO") && |v.items| < 2 ==> FromValue(v) == Err(WrongArity)
    ensures Calls(v, "SET") && |v.items| < 3 ==> FromValue(v) == Err(WrongArity)
    ensures Calls(v, "DEL") && |v.items| < 2 ==> FromValue(v) == Err(WrongArity)
    ensures Calls(v, "EXISTS") && |v.items| < 2 ==> FromValue(v) == Err(WrongArity)
    ensures Calls(v, "CLUSTER") && |v.items| < 2 ==> FromValue(v) == Err(WrongArity)
  {
    hide Decode, SameLetters, AsStr;
    if Calls(v, "GET") { CallDecodes(v, "GET"); FewArm(v.items); }
    if Calls(v, "ECHO") { CallDecodes(v, "ECHO"); FewArm(v.items); }
    if Calls(v, "SET") { CallDecodes(v, "SET"); FewArm(v.items); }
    if Calls(v, "DEL") { CallDecodes(v, "DEL"); FewArm(v.items); }
    if Calls(v, "EXISTS") { CallDecodes(v, "EXISTS"); FewArm(v.items); }
    if Calls(v, "CLUSTER") { CallDecodes(v, "CLUSTER"); FewArm(v.items); }
  }

  lemma FewArm(items: seq<Value>)
    requires items != []
    ensures |items| < 2 ==> Decode("GET", items) == Decode("ECHO", items) == Decode("DEL", items) == Err(WrongArity)
    ensures |items| < 2 ==> Decode("EXISTS", items) == Decode("CLUSTER", items) == Err(WrongArity)
    ensures |items| < 3 ==> Decode("SET", items) == Err(WrongArity)
  {
    hide AsStr;
  }

  /** Keys of GET and SET must be text, and so must the name; anything but a
      non-empty array is no command. */
  lemma NotText(v: Value)
    ensures Calls(v, "GET") && |v.items| >= 2 && (forall s :: !Says(v.items[1], s)) ==> FromValue(v) == Err(KeyNotText)
    ensures Calls(v, "SET") && |v.items| >= 3 && (forall s :: !Says(v.items[1], s)) ==> FromValue(v) == Err(KeyNotText)
    ensures v.Array? && v.items != [] && (forall s :: !Says(v.items[0], s)) ==> FromValue(v) == Err(NameNotText)
    ensures !v.Array? ==> FromValue(v) == Err(NotAnArray)
    ensures v == Array([]) ==> FromValue(v) == Err(EmptyArray)
  {
    hide Utf8;
    if v.Array? && v.items != [] {
      SaysIsText(v.items[0]);
      if |v.items| >= 2 {
        SaysIsText(v.items[1]);
      }
    }
    if Calls(v, "GET") {
      CallDecodes(v, "GET");
    }
    if Calls(v, "SET") {
      CallDecodes(v, "SET");
    }
  }

  /** What a CLUSTER command can lack. */
  lemma ClusterErrors(v: Value)
    ensures CallsCluster(v, "KEYSLOT") && |v.items| < 3 ==> FromValue(v) == Err(WrongArity)
    ensures CallsCluster(v, "MEET") && |v.items| < 4 ==> FromValue(v) == Err(WrongArity)
    ensures CallsCluster(v, "ADDSLOTS") && |v.items| < 3 ==> FromValue(v) == Err(WrongArity)
    ensures CallsCluster(v, "MEET") && |v.items| >= 4
              && (AsStr(v.items[3]).None? || ParseUnsigned(AsStr(v.items[3]).value, 0xFFFF).None?) ==>
            FromValue(v) == Err(BadPort)
    ensures Calls(v, "CLUSTER") && |v.items| >= 2 && (forall s :: !Says(v.items[1], s)) ==>
            FromValue(v) == Err(NameNotText)
  {
    hide Utf8, Upper, FromValue, SameLetters, AsStr, ParseUnsigned, ParseSlots;
    if CallsCluster(v, "KEYSLOT") {
      ClusterDecodes(v, "KEYSLOT");
    }
    if CallsCluster(v, "MEET") {
      ClusterDecodes(v, "MEET");
    }
    if CallsCluster(v, "ADDSLOTS") {
      ClusterDecodes(v, "ADDSLOTS");
    }
    if Calls(v, "CLUSTER") && |v.items| >= 2 {
      CallDecodes(v, "CLUSTER");
      ClusterArm(v.items);
      SaysIsText(v.items[1]);
    }
  }

  lemma ClusterArm(items: seq<Value>)
    requires items != []
    ensures Decode("CLUSTER", items) == DecodeCluster(items)
  {
    hide AsStr, Texts, DecodeCluster;
  }

  const SUBCOMMANDS: seq<bytes> := ["KEYSLOT", "INFO", "NODES", "SLOTS", "MEET", "ADDSLOTS"]

  /** A CLUSTER subcommand is unknown if and only if it spells none of these. */
  lemma UnknownSubExactly(v: Value, sub: bytes)
    requires Calls(v, "CLUSTER") && |v.items| >= 2 && Says(v.items[1], sub)
    ensures FromValue(v) == Err(Unknown(Upper(sub))) <==> !(exists W <- SUBCOMMANDS :: SameLetters(sub, W))
  {
    hide Utf8, Decode, Upper, DecodeCluster;
    CallDecodes(v, "CLUSTER");
    ClusterArm(v.items);
    SaysIsText(v.items[1]);
    assert forall W <- SUBCOMMANDS :: Capital(W);
    forall W <- SUBCOMMANDS ensures SameLetters(sub, W) <==> Upper(sub) == W {
      CaseForgotten(sub, W);
      CapitalStays(W);
    }
    UnknownSub(v.items, sub);
  }

  lemma UnknownSub(items: seq<Value>, sub: bytes)
    requires |items| >= 2 && AsStr(items[1]) == Some(sub)
    ensures DecodeCluster(items) == Err(Unknown(Upper(sub))) <==> Upper(sub) !in SUBCOMMANDS
  {
    hide AsStr, Upper, ParseSlots, ParseUnsigned;
  }

  const KNOWN: seq<bytes> := ["PING", "ECHO", "GET", "SET", "DEL", "EXISTS", "KEYS", "INFO", "REPLCONF", "PSYNC",
                              "AUTH", "CLUSTER", "QUIT", "COMMAND"]

  /** A command is unknown if and only if its name spells none of these; the answer
      names it in upper case. */
  lemma UnknownExactly(v: Value, name: bytes)
    requires v.Array? && v.items != [] && Says(v.items[0], name) && !Calls(v, "CLUSTER")
    ensures FromValue(v) == Err(Unknown(Upper(name))) <==> !(exists W <- KNOWN :: SameLetters(name, W))
  {
    hide Utf8, Decode, Upper;
    SaysIsText(v.items[0]);
    KnownCapital();
    forall W <- KNOWN ensures SameLetters(name, W) <==> Upper(name) == W {
      CaseForgotten(name, W);
      CapitalStays(W);
    }
    UnknownArm(Upper(name), v.items);
    assert "CLUSTER" in KNOWN;
  }

  lemma KnownCapital()
    ensures forall W <- KNOWN :: Capital(W)
  {
  }

  lemma UnknownArm(name: bytes, items: seq<Value>)
    requires items != [] && name != "CLUSTER"
    ensures Decode(name, items) == Err(Unknown(name)) <==> name !in KNOWN
  {
    hide AsStr, Texts, SetOptions;
  }
}
