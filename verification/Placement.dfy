/** Where keys live. A connection first decides whether to redirect a command,
    then executes it; other connections act in between. On a master whose
    topology changes only by CLUSTER MEET and CLUSTER ADDSLOTS, no interleaving
    stores a key in a slot this node does not own. */
module Placement {
  import opened Bytes
  import opened Commands
  import opened Slot
  import opened Topology

  datatype Decision = Local | Moved(slot: nat, owner: Node) | Down

  /** The redirect decision of an authenticated connection. */
  function Decide(t: Topo, c: Command): Decision {
    match TargetKey(c)
    case None => Local
    case Some(key) =>
      var slot := SlotOf(key);
      if Owns(t, slot) then Local
      else match NodeFor(t, slot)
        case Some(owner) => Moved(slot, owner)
        case None => Down
  }

  /** The commands that are about a key: GET and SET of it, DEL and EXISTS when it is
      the first of theirs. */
  ghost predicate About(c: Command, key: bytes) {
    match c
    case Get(k) => k == key
    case Set(k, _, _) => k == key
    case Del(keys) => exists rest :: keys == [key] + rest
    case Exists(keys) => exists rest :: keys == [key] + rest
    case _ => false
  }

  lemma AboutExactly(c: Command, key: bytes)
    ensures About(c, key) <==> TargetKey(c) == Some(key)
  {
    if (c.Del? || c.Exists?) && c.keys != [] {
      assert c.keys == [c.keys[0]] + c.keys[1..];
    }
  }

  /** The decision, for every command: a command about a key is served here exactly
      if this node owns its slot, is redirected exactly if another node does, and is
      refused exactly if nobody does; every other command is served here. */
  lemma DecideExactly(t: Topo, c: Command)
    requires WellFormed(t)
    ensures forall key :: About(c, key) ==>
              && (Decide(t, c) == Local <==> Owns(t, SlotOf(key)))
              && (Decide(t, c) == Down <==> SlotOf(key) < |t.table| && t.table[SlotOf(key)] == None)
              && (forall slot: nat, owner :: Decide(t, c) == Moved(slot, owner) <==>
                    slot == SlotOf(key) < |t.table| && t.table[slot] == Some(owner) && owner.id != t.me)
    ensures (forall key :: !About(c, key)) ==> Decide(t, c) == Local
  {
    hide SlotOf, About;
    forall key ensures About(c, key) <==> TargetKey(c) == Some(key) {
      AboutExactly(c, key);
    }
    match TargetKey(c)
    case None =>
    case Some(key) => SlotInRange(key);
  }

  /** ADDSLOTS: one slot after the other, up to the first that is invalid. */
  function AddEach(t: Topo, id: bytes, slots: seq<nat>): Topo
    decreases |slots|
  {
    if slots == [] || !Assignable(t, id, slots[0], slots[0]) then t
    else AddEach(Assign(t, id, slots[0], slots[0]), id, slots[1..])
  }

  function SlotsAdded(t: Topo, slots: seq<nat>): Topo {
    if t.me in t.nodes then AddEach(t, t.nodes[t.me].id, slots) else t
  }

  /** The ADDSLOTS arm of `execute`; false stands for its error reply. */
  method AddSlots(topo: ClusterTopology, slots: seq<nat>) returns (ok: bool)
    requires WellFormed(topo.View())
    modifies topo
    ensures WellFormed(topo.View()) && topo.View() == SlotsAdded(old(topo.View()), slots)
    ensures old(topo.myselfId in topo.nodes) ==> (ok <==> forall s <- slots :: s < HASH_SLOTS)
  {
    hide Assign;
    ok := true;
    if topo.myselfId in topo.nodes {
      var id := topo.nodes[topo.myselfId].id;
      var i := 0;
      while i < |slots|
        invariant 0 <= i <= |slots| && WellFormed(topo.View()) && id in topo.nodes
        invariant AddEach(topo.View(), id, slots[i..]) == AddEach(old(topo.View()), id, slots)
        invariant forall j :: 0 <= j < i ==> slots[j] < HASH_SLOTS
      {
        assert slots[i..][0] == slots[i] && slots[i..][1..] == slots[i + 1..];
        AssignKnows(topo.View(), id, slots[i], slots[i]);
        ok := topo.AddSlotsRange(id, slots[i], slots[i]);
        if !ok {
          assert slots[i] in slots;
          return;
        }
        i := i + 1;
      }
    }
  }

  lemma AssignKnows(t: Topo, id: bytes, start: nat, end: nat)
    requires id in t.nodes
    ensures id in Assign(t, id, start, end).nodes
  {
  }

  // ------------------------------------------------------------- interleaving

  /** The node: its topology, the keys it stores, and for each connection the
      command that has passed the redirect check but not yet run. */
  datatype Server = Server(topo: Topo, keys: set<bytes>, checked: map<nat, Command>)

  datatype Step =
    | Check(conn: nat, cmd: Command)
    | Execute(conn: nat)
    | Drop(keys: set<bytes>)

  /** What a command may do to topology and key set. */
  ghost predicate Effect(n: Server, c: Command, m: Server)
    requires WellFormed(n.topo)
  {
    && m.checked == n.checked
    && match c
       case Set(key, _, _) => m.topo == n.topo && m.keys <= n.keys + {key}
       case Del(keys) => m.topo == n.topo && m.keys <= n.keys
       case Cluster(Meet(_, _)) =>
         m.keys == n.keys && exists peer: Node :: m.topo == n.topo.(nodes := n.topo.nodes[peer.id := peer])
       case Cluster(AddSlots(slots)) => m.keys == n.keys && m.topo == SlotsAdded(n.topo, slots)
       case _ => m.topo == n.topo && m.keys <= n.keys
  }

  ghost predicate Next(n: Server, a: Step, m: Server)
    requires WellFormed(n.topo)
  {
    match a
    case Check(conn, cmd) => Decide(n.topo, cmd) == Local && m == n.(checked := n.checked[conn := cmd])
    case Execute(conn) =>
      conn in n.checked && Effect(n.(checked := n.checked - {conn}), n.checked[conn], m)
    case Drop(keys) => m == n.(keys := n.keys - keys)
  }

  ghost predicate Inv(n: Server) {
    && WellFormed(n.topo)
    && (forall k <- n.keys :: Owns(n.topo, SlotOf(k)))
    && (forall conn <- n.checked :: n.checked[conn].Set? ==> Owns(n.topo, SlotOf(n.checked[conn].key)))
  }

  /** Ownership only grows. */
  ghost predicate OwnershipGrows(t: Topo, u: Topo) {
    u.me == t.me && forall s :: Owns(t, s) ==> Owns(u, s)
  }

  lemma {:induction false} AddEachGrows(t: Topo, slots: seq<nat>)
    requires WellFormed(t)
    ensures var u := AddEach(t, t.me, slots);
            && WellFormed(u) && OwnershipGrows(t, u)
            && CountAssigned(t.table, HASH_SLOTS) <= CountAssigned(u.table, HASH_SLOTS)
    decreases |slots|
  {
    if slots != [] && Assignable(t, t.me, slots[0], slots[0]) {
      var m := Assign(t, t.me, slots[0], slots[0]);
      AddEachGrows(m, slots[1..]);
      CountGrows(t.table, m.table, HASH_SLOTS);
    }
  }

  /** How many slots come before the first that does not exist. */
  function ValidSlots(slots: seq<nat>): (n: nat)
    ensures n <= |slots| && (forall j :: 0 <= j < n ==> slots[j] < HASH_SLOTS)
    ensures n < |slots| ==> slots[n] >= HASH_SLOTS
  {
    if slots == [] || slots[0] >= HASH_SLOTS then 0 else 1 + ValidSlots(slots[1..])
  }

  /** ADDSLOTS takes over exactly the slots before the first invalid one, and leaves
      the owner of every other slot as it was. */
  lemma {:induction false} AddSlotsExactly(t: Topo, slots: seq<nat>)
    requires WellFormed(t) && t.me in t.nodes
    ensures var done := slots[..ValidSlots(slots)];
            && (forall s :: Owns(SlotsAdded(t, slots), s) <==> Owns(t, s) || s in done)
            && (forall s :: s !in done ==> NodeFor(SlotsAdded(t, slots), s) == NodeFor(t, s))
    decreases |slots|
  {
    if slots != [] && slots[0] < HASH_SLOTS {
      var m, n := Assign(t, t.me, slots[0], slots[0]), ValidSlots(slots);
      assert slots[..n] == [slots[0]] + slots[1..][..n - 1];
      AddSlotsExactly(m, slots[1..]);
      assert SlotsAdded(t, slots) == SlotsAdded(m, slots[1..]);
      assert forall s :: Owns(m, s) <==> Owns(t, s) || s == slots[0];
      assert forall s :: s != slots[0] ==> NodeFor(m, s) == NodeFor(t, s);
    }
  }

  lemma GrowthKeeps(n: Server, m: Server)
    requires Inv(n) && WellFormed(m.topo) && OwnershipGrows(n.topo, m.topo)
    requires m.keys <= n.keys && m.checked.Keys <= n.checked.Keys
    requires forall conn <- m.checked :: m.checked[conn] == n.checked[conn]
    ensures Inv(m)
  {
    hide SlotOf, Owns;
  }

  lemma StepKeeps(n: Server, a: Step, m: Server)
    requires Inv(n) && Next(n, a, m)
    ensures Inv(m) && OwnershipGrows(n.topo, m.topo)
    ensures CountAssigned(n.topo.table, HASH_SLOTS) <= CountAssigned(m.topo.table, HASH_SLOTS)
  {
    hide SlotOf, CountAssigned;
    match a
    case Check(conn, cmd) =>
    case Drop(keys) =>
    case Execute(conn) =>
      var c := n.checked[conn];
      if c.Cluster? && c.sub.AddSlots? {
        AddEachGrows(n.topo, c.sub.slots);
        GrowthKeeps(n, m);
      } else if c.Cluster? && c.sub.Meet? {
        GrowthKeeps(n, m);
      }
  }

  /** m is reached from n by a run of interleaved steps. */
  ghost predicate Reaches(n: Server, run: seq<Step>, m: Server)
    decreases |run|
  {
    if run == [] then m == n else
    var k := |run| - 1;
    exists p :: Reaches(n, run[..k], p) && WellFormed(p.topo) && Next(p, run[k], m)
  }

  /** Placement over all runs: from an empty store, every key stored in any
      reachable state hashes to a slot this node owns then, and the number of
      assigned slots never went down. */
  lemma {:induction false} KeysStayInOwnedSlots(n: Server, run: seq<Step>, m: Server)
    requires WellFormed(n.topo) && n.keys == {} && n.checked == map[]
    requires Reaches(n, run, m)
    ensures Inv(m) && OwnershipGrows(n.topo, m.topo)
    ensures forall k <- m.keys :: Owns(m.topo, SlotOf(k))
    ensures CountAssigned(n.topo.table, HASH_SLOTS) <= CountAssigned(m.topo.table, HASH_SLOTS)
    decreases |run|
  {
    hide SlotOf, Next, CountAssigned;
    if run != [] {
      var k := |run| - 1;
      var p :| Reaches(n, run[..k], p) && WellFormed(p.topo) && Next(p, run[k], m);
      KeysStayInOwnedSlots(n, run[..k], p);
      StepKeeps(p, run[k], m);
    }
  }

  // ------------------------------------------------------------ redirection

  /** Nodes of one cluster, by id, that record the same owner for every slot. */
  ghost predicate Agree(nodes: map<bytes, Topo>) {
    && (forall id <- nodes :: WellFormed(nodes[id]) && nodes[id].me == id)
    && (forall a, b, s: nat :: a in nodes && b in nodes ==> OwnerId(nodes[a], s) == OwnerId(nodes[b], s))
  }

  function OwnerId(t: Topo, slot: nat): Option<bytes> {
    match NodeFor(t, slot)
    case Some(node) => Some(node.id)
    case None => None
  }

  /** Where a client that follows redirects ends up. */
  datatype Landing = Served(id: bytes) | Refused | Unreachable | StillMoving

  function Route(nodes: map<bytes, Topo>, c: Command, at: bytes, hops: nat): Landing
    requires at in nodes
    decreases hops
  {
    match Decide(nodes[at], c)
    case Local => Served(at)
    case Down => Refused
    case Moved(_, owner) =>
      if owner.id !in nodes then Unreachable
      else if hops == 0 then StillMoving
      else Route(nodes, c, owner.id, hops - 1)
  }

  /** In a cluster that agrees, one redirect is enough, and wherever the client
      starts and however far it would go, it ends at the one owner of the slot. */
  lemma OneRedirect(nodes: map<bytes, Topo>, c: Command, key: bytes, at: bytes, hops: nat)
    requires Agree(nodes) && at in nodes && hops > 0 && About(c, key)
    ensures Route(nodes, c, at, hops) ==
            match OwnerId(nodes[at], SlotOf(key))
            case None => Refused
            case Some(id) => if id in nodes then Served(id) else Unreachable
    ensures forall other <- nodes :: Route(nodes, c, other, hops) == Route(nodes, c, at, hops)
  {
    hide SlotOf;
    forall other <- nodes
      ensures Route(nodes, c, other, hops) ==
              match OwnerId(nodes[at], SlotOf(key))
              case None => Refused
              case Some(id) => if id in nodes then Served(id) else Unreachable
    {
      assert OwnerId(nodes[other], SlotOf(key)) == OwnerId(nodes[at], SlotOf(key));
      if Decide(nodes[other], c).Moved? {
        var owner := Decide(nodes[other], c).owner;
        if owner.id in nodes {
          assert OwnerId(nodes[owner.id], SlotOf(key)) == OwnerId(nodes[other], SlotOf(key));
          assert Decide(nodes[owner.id], c) == Local;
        }
      }
    }
  }

  /** Two nodes that each take the other for the owner send a client in circles. */
  lemma {:induction false} CirclesForever(nodes: map<bytes, Topo>, c: Command, key: bytes,
                                          a: bytes, b: bytes, hops: nat)
    requires a in nodes && b in nodes && a != b && About(c, key)
    requires nodes[a].me == a && OwnerId(nodes[a], SlotOf(key)) == Some(b)
    requires nodes[b].me == b && OwnerId(nodes[b], SlotOf(key)) == Some(a)
    ensures Route(nodes, c, a, hops) == StillMoving
    decreases hops
  {
    hide SlotOf;
    if hops > 0 {
      CirclesForever(nodes, c, key, b, a, hops - 1);
    }
  }

  // ------------------------------------------- the topologies a node can have

  /** Every assigned slot is assigned to this node. */
  ghost predicate OwnOnly(t: Topo) {
    forall s: nat :: NodeFor(t, s).Some? ==> Owns(t, s)
  }

  ghost predicate OwnsAll(t: Topo) {
    forall s: nat :: s < HASH_SLOTS ==> Owns(t, s)
  }

  lemma AssignOwnOnly(t: Topo, start: nat, end: nat)
    requires WellFormed(t) && OwnOnly(t) && Assignable(t, t.me, start, end)
    ensures OwnOnly(Assign(t, t.me, start, end))
  {
    var m := Assign(t, t.me, start, end);
    forall s: nat | NodeFor(m, s).Some? ensures Owns(m, s) {
      assert start <= s <= end || NodeFor(m, s) == NodeFor(t, s);
    }
  }

  predicate ValidRange(r: (nat, nat)) {
    r.0 <= r.1 < HASH_SLOTS
  }

  /** How many ranges come before the first invalid one. */
  function ValidCount(ranges: seq<(nat, nat)>): (n: nat)
    ensures n <= |ranges| && (forall j :: 0 <= j < n ==> ValidRange(ranges[j]))
    ensures n < |ranges| ==> !ValidRange(ranges[n])
  {
    if ranges == [] || !ValidRange(ranges[0]) then 0 else 1 + ValidCount(ranges[1..])
  }

  ghost predicate InRanges(ranges: seq<(nat, nat)>, n: nat, s: nat)
    requires n <= |ranges|
  {
    exists j :: 0 <= j < n && ranges[j].0 <= s <= ranges[j].1
  }

  lemma InOneMore(ranges: seq<(nat, nat)>, n: nat, s: nat)
    requires n < |ranges|
    ensures InRanges(ranges, n + 1, s) <==> InRanges(ranges, n, s) || ranges[n].0 <= s <= ranges[n].1
  {
  }

  lemma AssignOwns(t: Topo, start: nat, end: nat, s: nat)
    requires WellFormed(t) && Assignable(t, t.me, start, end)
    ensures Owns(Assign(t, t.me, start, end), s) <==> Owns(t, s) || start <= s <= end
  {
  }

  /** Start-up: the configured ranges up to the first invalid one, or every slot
      when none are configured. */
  method StartTopology(myself: Node, ranges: Option<seq<(nat, nat)>>) returns (topo: ClusterTopology)
    ensures fresh(topo) && WellFormed(topo.View()) && OwnOnly(topo.View()) && topo.myselfId == myself.id
    ensures ranges.None? ==> OwnsAll(topo.View())
    ensures ranges.Some? ==> forall s: nat :: Owns(topo.View(), s) <==>
              InRanges(ranges.value, ValidCount(ranges.value), s)
  {
    hide Assign, Owns, InRanges, ValidCount;
    topo := new ClusterTopology(myself);
    if ranges.None? {
      AssignOwnOnly(topo.View(), 0, HASH_SLOTS - 1);
      AssignsAll(topo.View());
      var _ := topo.AddSlotsRange(myself.id, 0, HASH_SLOTS - 1);
    } else {
      NothingOwned(topo.View());
      AssignRanges(topo, ranges.value);
    }
  }

  /** `parse_and_assign_slots` on the ranges of the specification. */
  method AssignRanges(topo: ClusterTopology, ranges: seq<(nat, nat)>)
    requires WellFormed(topo.View()) && OwnOnly(topo.View()) && topo.myselfId in topo.nodes
    modifies topo
    ensures WellFormed(topo.View()) && OwnOnly(topo.View())
    ensures forall s: nat :: Owns(topo.View(), s) <==>
              old(Owns(topo.View(), s)) || InRanges(ranges, ValidCount(ranges), s)
  {
    hide Assign, Owns, InRanges, ValidCount, OwnOnly;
    ghost var t := topo.View();
    var id := topo.myselfId;
    var i := 0;
    ghost var n := ValidCount(ranges);
    forall s: nat ensures !InRanges(ranges, 0, s) {
      InNone(ranges, s);
    }
    while i < |ranges|
      invariant 0 <= i <= n && WellFormed(topo.View()) && OwnOnly(topo.View())
      invariant topo.myselfId == id && id in topo.nodes
      invariant forall s: nat :: Owns(topo.View(), s) <==> Owns(t, s) || InRanges(ranges, i, s)
    {
      var r := ranges[i];
      ghost var u := topo.View();
      var ok := topo.AddSlotsRange(id, r.0, r.1);
      if !ok {
        return;
      }
      AssignOwnOnly(u, r.0, r.1);
      AssignKnows(u, id, r.0, r.1);
      forall s: nat ensures Owns(topo.View(), s) <==> Owns(t, s) || InRanges(ranges, i + 1, s) {
        AssignOwns(u, r.0, r.1, s);
        InOneMore(ranges, i, s);
      }
      i := i + 1;
    }
  }

  lemma InNone(ranges: seq<(nat, nat)>, s: nat)
    ensures !InRanges(ranges, 0, s)
  {
  }

  lemma NothingOwned(t: Topo)
    requires forall s :: 0 <= s < |t.table| ==> t.table[s] == None
    ensures forall s: nat :: !Owns(t, s)
  {
  }

  lemma AssignsAll(t: Topo)
    requires WellFormed(t) && t.me in t.nodes
    ensures OwnsAll(Assign(t, t.me, 0, HASH_SLOTS - 1))
  {
  }

  lemma {:induction false} AddEachOwnOnly(t: Topo, slots: seq<nat>)
    requires WellFormed(t) && OwnOnly(t)
    ensures OwnOnly(AddEach(t, t.me, slots))
    decreases |slots|
  {
    if slots != [] && Assignable(t, t.me, slots[0], slots[0]) {
      var m := Assign(t, t.me, slots[0], slots[0]);
      AssignOwnOnly(t, slots[0], slots[0]);
      AddEachOwnOnly(m, slots[1..]);
    }
  }

  lemma StepOwnOnly(n: Server, a: Step, m: Server)
    requires WellFormed(n.topo) && OwnOnly(n.topo) && Next(n, a, m)
    ensures WellFormed(m.topo) && OwnOnly(m.topo)
  {
    hide SlotOf;
    if a.Execute? {
      var c := n.checked[a.conn];
      if c.Cluster? && c.sub.AddSlots? {
        AddEachOwnOnly(n.topo, c.sub.slots);
        AddEachGrows(n.topo, c.sub.slots);
      } else if c.Cluster? && c.sub.Meet? {
        forall s: nat | NodeFor(m.topo, s).Some? ensures Owns(m.topo, s) {
          assert NodeFor(m.topo, s) == NodeFor(n.topo, s);
        }
      }
    }
  }

  lemma OwnOnlyDecides(t: Topo, c: Command)
    requires WellFormed(t) && OwnOnly(t)
    ensures !Decide(t, c).Moved?
    ensures forall key :: About(c, key) ==> (Decide(t, c) == Down <==> !Owns(t, SlotOf(key)))
  {
    hide SlotOf, About;
    forall key ensures About(c, key) <==> TargetKey(c) == Some(key) {
      AboutExactly(c, key);
    }
  }

  /** A node starts with slots of its own only, and no command assigns a slot to
      another node. So over every run it never redirects: a key whose slot it does
      not own gets CLUSTERDOWN, whichever nodes it has met. */
  lemma {:induction false} NeverRedirects(n: Server, run: seq<Step>, m: Server, c: Command)
    requires WellFormed(n.topo) && OwnOnly(n.topo) && Reaches(n, run, m)
    ensures WellFormed(m.topo) && OwnOnly(m.topo)
    ensures !Decide(m.topo, c).Moved?
    ensures forall key :: About(c, key) ==>
              && (Decide(m.topo, c) == Local <==> Owns(m.topo, SlotOf(key)))
              && (Decide(m.topo, c) == Down <==> !Owns(m.topo, SlotOf(key)))
    ensures (forall key :: !About(c, key)) ==> Decide(m.topo, c) == Local
    decreases |run|
  {
    hide SlotOf, Next;
    if run != [] {
      var k := |run| - 1;
      var p :| Reaches(n, run[..k], p) && WellFormed(p.topo) && Next(p, run[k], m);
      NeverRedirects(n, run[..k], p, c);
      StepOwnOnly(p, run[k], m);
    }
    hide About, Decide;
    DecideExactly(m.topo, c);
    OwnOnlyDecides(m.topo, c);
  }
}
