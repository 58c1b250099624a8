/** The cluster topology: the node table, the slot table, and its run-length
    view for CLUSTER SLOTS. */
module Topology {
  import opened Bytes
  import opened Resp
  import opened Slot

  datatype Node = Node(id: bytes, ip: bytes, port: nat, busPort: nat, isMyself: bool, isMaster: bool,
                       slots: seq<(nat, nat)>)

  type Table = seq<Option<Node>>

  /** The topology as a value. */
  datatype Topo = Topo(nodes: map<bytes, Node>, table: Table, me: bytes)

  ghost predicate WellFormed(t: Topo) {
    |t.table| == HASH_SLOTS && forall id <- t.nodes :: t.nodes[id].id == id
  }

  function NodeFor(t: Topo, slot: nat): Option<Node> {
    if slot < |t.table| then t.table[slot] else None
  }

  predicate Owns(t: Topo, slot: nat) {
    NodeFor(t, slot).Some? && NodeFor(t, slot).value.id == t.me
  }

  predicate Assignable(t: Topo, id: bytes, start: nat, end: nat) {
    start <= end < HASH_SLOTS && id in t.nodes
  }

  /** Slots start to end now belong to the node, everything else is as before. */
  function Assign(t: Topo, id: bytes, start: nat, end: nat): Topo
    requires id in t.nodes
  {
    t.(table := seq(|t.table|, s requires 0 <= s < |t.table| =>
                      if start <= s <= end then Some(t.nodes[id]) else t.table[s]),
       nodes := t.nodes[id := t.nodes[id].(slots := t.nodes[id].slots + [(start, end)])])
  }

  /** The slot list of its owner accounts for every assigned slot. */
  ghost predicate ListsCover(t: Topo) {
    forall s: nat :: NodeFor(t, s).Some? ==>
      var id := NodeFor(t, s).value.id;
      id in t.nodes && exists p <- t.nodes[id].slots :: p.0 <= s <= p.1
  }

  lemma AssignLists(t: Topo, id: bytes, start: nat, end: nat)
    requires WellFormed(t) && Assignable(t, id, start, end) && ListsCover(t)
    ensures ListsCover(Assign(t, id, start, end))
  {
    var u := Assign(t, id, start, end);
    forall s: nat | NodeFor(u, s).Some?
      ensures var owner := NodeFor(u, s).value.id;
              owner in u.nodes && exists p <- u.nodes[owner].slots :: p.0 <= s <= p.1
    {
      if start <= s <= end {
        assert (start, end) in u.nodes[id].slots;
      } else {
        var owner := NodeFor(t, s).value.id;
        var p :| p in t.nodes[owner].slots && p.0 <= s <= p.1;
        assert p in u.nodes[owner].slots;
      }
    }
  }

  // ----------------------------------------------------------- run lengths

  datatype Range = Range(start: nat, end: nat, node: Node)

  /** The ranges of the first n slots, extended slot by slot. */
  function Runs(t: Table, n: nat): seq<Range>
    requires n <= |t|
  {
    if n == 0 then []
    else
      var rs := Runs(t, n - 1);
      match t[n - 1]
      case None => rs
      case Some(node) =>
        if rs != [] && rs[|rs| - 1].end + 1 == n - 1 && rs[|rs| - 1].node.id == node.id
        then rs[|rs| - 1 := rs[|rs| - 1].(end := n - 1)]
        else rs + [Range(n - 1, n - 1, node)]
  }

  /** One range: slots of one owner, named by the entry of its first slot. */
  ghost predicate GoodRange(r: Range, t: Table, n: nat)
    requires n <= |t|
  {
    && r.start <= r.end < n
    && t[r.start] == Some(r.node)
    && forall s :: r.start <= s <= r.end ==> t[s].Some? && t[s].value.id == r.node.id
  }

  ghost predicate AllGood(rs: seq<Range>, t: Table, n: nat)
    requires n <= |t|
  {
    forall i :: 0 <= i < |rs| ==> GoodRange(rs[i], t, n)
  }

  ghost predicate Sorted(rs: seq<Range>) {
    forall i, j :: 0 <= i < j < |rs| ==> rs[i].end < rs[j].start
  }

  predicate Mergeable(r: Range, q: Range) {
    r.end + 1 == q.start && r.node.id == q.node.id
  }

  ghost predicate Maximal(rs: seq<Range>) {
    forall i :: 0 < i < |rs| ==> !Mergeable(rs[i - 1], rs[i])
  }

  ghost predicate Covered(rs: seq<Range>, s: nat) {
    exists i :: 0 <= i < |rs| && rs[i].start <= s <= rs[i].end
  }

  ghost predicate Complete(rs: seq<Range>, t: Table, n: nat)
    requires n <= |t|
  {
    forall s :: 0 <= s < n && t[s].Some? ==> Covered(rs, s)
  }

  /** A canonical encoding of the first n slots: sorted, disjoint, complete, and
      with no two neighbours that could be one range. */
  ghost predicate Canonical(rs: seq<Range>, t: Table, n: nat)
    requires n <= |t|
  {
    AllGood(rs, t, n) && Sorted(rs) && Maximal(rs) && Complete(rs, t, n)
  }

  /** An unassigned slot adds nothing. */
  lemma SkipSlot(rs: seq<Range>, t: Table, n: nat)
    requires 0 < n <= |t| && Canonical(rs, t, n - 1) && t[n - 1].None?
    ensures Canonical(rs, t, n)
  {
    hide Sorted, Maximal, Covered;
  }

  /** A slot with another owner than its neighbour starts a range. */
  lemma StartRange(rs: seq<Range>, t: Table, n: nat, r: Range)
    requires 0 < n <= |t| && Canonical(rs, t, n - 1)
    requires r.start == r.end == n - 1 && t[n - 1] == Some(r.node)
    requires rs == [] || !Mergeable(rs[|rs| - 1], r)
    ensures Canonical(rs + [r], t, n)
  {
    var qs := rs + [r];
    forall s | 0 <= s < n && t[s].Some? ensures Covered(qs, s) {
      if s < n - 1 {
        var i :| 0 <= i < |rs| && rs[i].start <= s <= rs[i].end;
        assert qs[i].start <= s <= qs[i].end;
      } else {
        assert qs[|rs|].start <= s <= qs[|rs|].end;
      }
    }
    forall i | 0 <= i < |qs| ensures GoodRange(qs[i], t, n) {
      assert i < |rs| ==> GoodRange(rs[i], t, n - 1);
    }
    assert Sorted(qs) && Maximal(qs);
  }

  /** The end of the last range is free to move. */
  lemma LastEndIsFree(rs: seq<Range>, e: nat)
    requires rs != [] && Sorted(rs) && Maximal(rs)
    ensures var k := |rs| - 1; Sorted(rs[k := rs[k].(end := e)]) && Maximal(rs[k := rs[k].(end := e)])
  {
    var k := |rs| - 1;
    var qs := rs[k := rs[k].(end := e)];
    assert forall i :: 0 <= i < k ==> qs[i] == rs[i];
    assert qs[k].start == rs[k].start && qs[k].node == rs[k].node;
  }

  lemma CoverMoves(rs: seq<Range>, qs: seq<Range>, s: nat)
    requires Covered(rs, s) && |qs| == |rs|
    requires forall i :: 0 <= i < |rs| ==> qs[i].start == rs[i].start && (s <= rs[i].end ==> s <= qs[i].end)
    ensures Covered(qs, s)
  {
    var i :| 0 <= i < |rs| && rs[i].start <= s <= rs[i].end;
    assert qs[i].start <= s <= qs[i].end;
  }

  /** A slot with the owner of its neighbour extends the last range. */
  lemma ExtendRange(rs: seq<Range>, t: Table, n: nat)
    requires 0 < n <= |t| && Canonical(rs, t, n - 1) && rs != [] && t[n - 1].Some?
    requires rs[|rs| - 1].end + 1 == n - 1 && rs[|rs| - 1].node.id == t[n - 1].value.id
    ensures Canonical(rs[|rs| - 1 := rs[|rs| - 1].(end := n - 1)], t, n)
  {
    hide Sorted, Maximal, Covered;
    var k := |rs| - 1;
    var qs := rs[k := rs[k].(end := n - 1)];
    LastEndIsFree(rs, n - 1);
    forall i | 0 <= i < |qs| ensures GoodRange(qs[i], t, n) {
      assert GoodRange(rs[i], t, n - 1);
    }
    forall s | 0 <= s < n && t[s].Some? ensures Covered(qs, s) {
      if s < n - 1 {
        CoverMoves(rs, qs, s);
      } else {
        CoveredByLast(qs, s);
      }
    }
  }

  lemma CoveredByLast(rs: seq<Range>, s: nat)
    requires rs != [] && rs[|rs| - 1].start <= s <= rs[|rs| - 1].end
    ensures Covered(rs, s)
  {
  }

  /** The slot-by-slot computation is canonical. */
  lemma {:induction false} RunsCanonical(t: Table, n: nat)
    requires n <= |t|
    ensures Canonical(Runs(t, n), t, n)
  {
    hide Canonical;
    if n == 0 {
      NoRanges(t);
    } else {
      var rs := Runs(t, n - 1);
      RunsCanonical(t, n - 1);
      if t[n - 1].None? {
        SkipSlot(rs, t, n);
      } else if rs != [] && rs[|rs| - 1].end + 1 == n - 1 && rs[|rs| - 1].node.id == t[n - 1].value.id {
        ExtendRange(rs, t, n);
      } else {
        StartRange(rs, t, n, Range(n - 1, n - 1, t[n - 1].value));
      }
    }
  }

  lemma NoRanges(t: Table)
    ensures Canonical([], t, 0)
  {
  }

  /** There is only one canonical encoding. */
  lemma {:induction false} CanonicalIsUnique(rs: seq<Range>, t: Table, n: nat)
    requires n <= |t| && Canonical(rs, t, n)
    ensures rs == Runs(t, n)
    decreases n
  {
    hide Canonical;
    var k := |rs| - 1;
    if n == 0 {
      NothingInNothing(rs, t);
    } else if rs == [] || rs[k].end < n - 1 {
      UnskipSlot(rs, t, n);
      CanonicalIsUnique(rs, t, n - 1);
    } else if rs[k].start == n - 1 {
      LastRange(rs, t, n);
      UnstartRange(rs, t, n);
      CanonicalIsUnique(rs[..k], t, n - 1);
      assert rs == rs[..k] + [rs[k]];
    } else {
      LastRange(rs, t, n);
      var qs := rs[k := rs[k].(end := n - 2)];
      UnextendRange(rs, qs, t, n);
      CanonicalIsUnique(qs, t, n - 1);
      assert rs == qs[k := qs[k].(end := n - 1)];
    }
  }

  lemma NothingInNothing(rs: seq<Range>, t: Table)
    requires Canonical(rs, t, 0)
    ensures rs == []
  {
    if rs != [] {
      NoRangeFits(rs[0], t);
      assert false;
    }
  }

  lemma NoRangeFits(r: Range, t: Table)
    ensures !GoodRange(r, t, 0)
  {
  }

  lemma UnskipSlot(rs: seq<Range>, t: Table, n: nat)
    requires 0 < n <= |t| && Canonical(rs, t, n) && (rs == [] || rs[|rs| - 1].end < n - 1)
    ensures t[n - 1] == None && Canonical(rs, t, n - 1)
  {
    assert forall i :: 0 <= i < |rs| - 1 ==> rs[i].end < rs[|rs| - 1].start;
    assert !Covered(rs, n - 1);
    forall i | 0 <= i < |rs| ensures GoodRange(rs[i], t, n - 1) {
      assert GoodRange(rs[i], t, n);
    }
  }

  lemma LastRange(rs: seq<Range>, t: Table, n: nat)
    requires 0 < n <= |t| && Canonical(rs, t, n) && rs != [] && n - 1 <= rs[|rs| - 1].end
    ensures var r := rs[|rs| - 1];
            && r.start <= r.end == n - 1 && t[r.start] == Some(r.node)
            && t[n - 1].Some? && t[n - 1].value.id == r.node.id
  {
    hide Sorted, Maximal, Complete;
    assert GoodRange(rs[|rs| - 1], t, n);
  }

  lemma UnstartRange(rs: seq<Range>, t: Table, n: nat)
    requires 0 < n <= |t| && Canonical(rs, t, n) && rs != [] && rs[|rs| - 1].start == n - 1
    ensures Canonical(rs[..|rs| - 1], t, n - 1)
    ensures |rs| > 1 ==> !Mergeable(rs[|rs| - 2], rs[|rs| - 1])
  {
    hide Covered;
    var k := |rs| - 1;
    var qs := rs[..k];
    forall i | 0 <= i < k ensures GoodRange(qs[i], t, n - 1) {
      assert GoodRange(rs[i], t, n) && rs[i].end < rs[k].start;
    }
    forall s | 0 <= s < n - 1 && t[s].Some? ensures Covered(qs, s) {
      CoveredBefore(rs, s);
    }
    SortedPrefix(rs);
  }

  lemma SortedPrefix(rs: seq<Range>)
    requires rs != [] && Sorted(rs) && Maximal(rs)
    ensures Sorted(rs[..|rs| - 1]) && Maximal(rs[..|rs| - 1])
  {
  }

  lemma CoveredBefore(rs: seq<Range>, s: nat)
    requires rs != [] && Covered(rs, s) && s < rs[|rs| - 1].start
    ensures Covered(rs[..|rs| - 1], s)
  {
    var i :| 0 <= i < |rs| && rs[i].start <= s <= rs[i].end;
    assert rs[..|rs| - 1][i].start <= s <= rs[..|rs| - 1][i].end;
  }

  lemma UnextendRange(rs: seq<Range>, qs: seq<Range>, t: Table, n: nat)
    requires 1 < n <= |t| && Canonical(rs, t, n) && rs != []
    requires rs[|rs| - 1].start < n - 1 == rs[|rs| - 1].end
    requires qs == rs[|rs| - 1 := rs[|rs| - 1].(end := n - 2)]
    ensures Canonical(qs, t, n - 1)
  {
    hide Maximal, Covered;
    var k := |rs| - 1;
    LastEndIsFree(rs, n - 2);
    forall i | 0 <= i < |qs| ensures GoodRange(qs[i], t, n - 1) {
      assert GoodRange(rs[i], t, n);
      assert i < k ==> rs[i].end < rs[k].start;
    }
    forall s | 0 <= s < n - 1 && t[s].Some? ensures Covered(qs, s) {
      CoverMoves(rs, qs, s);
    }
  }

  // ------------------------------------------------------------------ counts

  /** `cluster_slots_assigned`. */
  function CountAssigned(t: Table, n: nat): nat
    requires n <= |t|
  {
    if n == 0 then 0 else CountAssigned(t, n - 1) + if t[n - 1].Some? then 1 else 0
  }

  function TotalLength(rs: seq<Range>): int {
    if rs == [] then 0
    else TotalLength(rs[..|rs| - 1]) + rs[|rs| - 1].end - rs[|rs| - 1].start + 1
  }

  /** The ranges of CLUSTER SLOTS add up to the count of CLUSTER INFO. */
  lemma {:induction false} LengthsAddUp(t: Table, n: nat)
    requires n <= |t|
    ensures TotalLength(Runs(t, n)) == CountAssigned(t, n)
  {
    if n > 0 {
      LengthsAddUp(t, n - 1);
      var rs, qs := Runs(t, n - 1), Runs(t, n);
      if t[n - 1].Some? {
        assert qs[..|qs| - 1] == if |qs| == |rs| then rs[..|rs| - 1] else rs;
      }
    }
  }

  lemma {:induction false} CountGrows(t: Table, u: Table, n: nat)
    requires n <= |t| == |u|
    requires forall s :: 0 <= s < n && t[s].Some? ==> u[s].Some?
    ensures CountAssigned(t, n) <= CountAssigned(u, n)
  {
    if n > 0 {
      CountGrows(t, u, n - 1);
    }
  }

  // ------------------------------------------------------ the mutable object

  /** A range as CLUSTER SLOTS reports it. */
  function RangeEntry(r: Range): Value {
    Array([Integer(r.start), Integer(r.end),
           Array([BulkString(r.node.ip), Integer(r.node.port), BulkString(r.node.id)])])
  }

  // ------------------------------------------------ what the reply must say

  /** An entry of the reply: first slot, last slot, and who serves them. */
  predicate EntryShaped(v: Value) {
    v.Array? && |v.items| == 3 && v.items[0].Integer? && v.items[1].Integer?
  }

  predicate EntryNames(v: Value, s: int) {
    EntryShaped(v) && v.items[0].i <= s <= v.items[1].i
  }

  /** Its slots exist and have one owner, and it gives the address recorded at the
      first of them. */
  ghost predicate EntryRight(v: Value, t: Table) {
    && EntryShaped(v) && 0 <= v.items[0].i <= v.items[1].i < |t|
    && (forall s :: v.items[0].i <= s <= v.items[1].i ==>
          t[s].Some? && t[v.items[0].i].Some? && t[s].value.id == t[v.items[0].i].value.id)
    && t[v.items[0].i].Some?
    && var node := t[v.items[0].i].value;
       v.items[2] == Array([BulkString(node.ip), Integer(node.port), BulkString(node.id)])
  }

  /** A reply that tells the table: right entries in the order of their slots,
      each assigned slot in exactly one of them, and no other slot. */
  ghost predicate Tells(reply: Value, t: Table) {
    && reply.Array?
    && (forall v <- reply.items :: EntryRight(v, t))
    && (forall i, j :: 0 <= i < j < |reply.items| && EntryShaped(reply.items[i]) && EntryShaped(reply.items[j]) ==>
          reply.items[i].items[1].i < reply.items[j].items[0].i)
    && (forall s :: 0 <= s < |t| ==> (t[s].Some? <==> exists v <- reply.items :: EntryNames(v, s)))
    && (forall s, i, j :: 0 <= i < |reply.items| && 0 <= j < |reply.items| ==>
          EntryNames(reply.items[i], s) && EntryNames(reply.items[j], s) ==> i == j)
  }

  lemma EntryReads(r: Range, t: Table)
    requires GoodRange(r, t, |t|)
    ensures EntryRight(RangeEntry(r), t)
    ensures forall s :: EntryNames(RangeEntry(r), s) <==> r.start <= s <= r.end
  {
  }

  /** The canonical ranges make such a reply. */
  lemma ReplyTells(rs: seq<Range>, t: Table, reply: Value)
    requires Canonical(rs, t, |t|)
    requires reply.Array? && |reply.items| == |rs| && forall i :: 0 <= i < |rs| ==> reply.items[i] == RangeEntry(rs[i])
    ensures Tells(reply, t)
  {
    hide EntryRight, EntryNames, GoodRange, Maximal;
    forall i | 0 <= i < |rs|
      ensures EntryRight(reply.items[i], t)
      ensures forall s :: EntryNames(reply.items[i], s) <==> rs[i].start <= s <= rs[i].end
    {
      EntryReads(rs[i], t);
    }
    forall s | 0 <= s < |t| ensures t[s].Some? <==> exists v <- reply.items :: EntryNames(v, s) {
      if t[s].Some? {
        assert Covered(rs, s);
        var i :| 0 <= i < |rs| && rs[i].start <= s <= rs[i].end;
        assert reply.items[i] in reply.items && EntryNames(reply.items[i], s);
      }
      if v :| v in reply.items && EntryNames(v, s) {
        var i :| 0 <= i < |reply.items| && reply.items[i] == v;
        InGoodRange(rs[i], t, s);
      }
    }
  }

  lemma InGoodRange(r: Range, t: Table, s: nat)
    requires GoodRange(r, t, |t|) && r.start <= s <= r.end
    ensures s < |t| && t[s].Some?
  {
  }

  /** The range in progress, if any. */
  function Open(current: Option<Range>): seq<Range> {
    if current.Some? then [current.value] else []
  }

  class ClusterTopology {
    var nodes: map<bytes, Node>
    var slotToNode: Table
    const myselfId: bytes

    function View(): Topo
      reads this
    {
      Topo(nodes, slotToNode, myselfId)
    }

    constructor (myself: Node)
      ensures WellFormed(View()) && myselfId == myself.id && nodes == map[myself.id := myself]
      ensures forall s :: 0 <= s < HASH_SLOTS ==> slotToNode[s] == None
    {
      myselfId := myself.id;
      nodes := map[myself.id := myself];
      slotToNode := seq(HASH_SLOTS, _ => None);
    }

    /** `add_node`. */
    method AddNode(node: Node)
      requires WellFormed(View())
      modifies this
      ensures WellFormed(View())
      ensures View() == old(View()).(nodes := old(nodes)[node.id := node])
    {
      nodes := nodes[node.id := node];
    }

    /** `add_slots_range`. */
    method AddSlotsRange(id: bytes, start: nat, end: nat) returns (ok: bool)
      requires WellFormed(View())
      modifies this
      ensures WellFormed(View())
      ensures ok == Assignable(old(View()), id, start, end)
      ensures View() == if ok then Assign(old(View()), id, start, end) else old(View())
    {
      if start > end || end >= HASH_SLOTS {
        return false;
      }
      if id !in nodes {
        return false;
      }
      var node := nodes[id];
      var slot := start;
      while slot <= end
        invariant start <= slot <= end + 1
        invariant nodes == old(nodes) && |slotToNode| == HASH_SLOTS
        invariant forall s :: 0 <= s < HASH_SLOTS ==>
                    slotToNode[s] == if start <= s < slot then Some(node) else old(slotToNode)[s]
      {
        slotToNode := slotToNode[slot := Some(node)];
        slot := slot + 1;
      }
      nodes := nodes[id := node.(slots := node.slots + [(start, end)])];
      ok := true;
    }

    /** The counting loop of `format_cluster_info`. */
    method CountSlots() returns (count: nat)
      ensures count == CountAssigned(slotToNode, |slotToNode|)
    {
      count := 0;
      var i := 0;
      while i < |slotToNode|
        invariant 0 <= i <= |slotToNode|
        invariant count == CountAssigned(slotToNode, i)
      {
        if slotToNode[i].Some? {
          count := count + 1;
        }
        i := i + 1;
      }
    }

    /** The scan of `format_cluster_slots`. */
    method CollectRanges() returns (ranges: seq<Range>)
      ensures ranges == Runs(slotToNode, |slotToNode|)
    {
      ranges := [];
      var current: Option<Range> := None;
      var slot := 0;
      while slot < |slotToNode|
        invariant 0 <= slot <= |slotToNode|
        invariant ranges + Open(current) == Runs(slotToNode, slot)
        invariant current.Some? ==> current.value.end + 1 == slot
        invariant current.None? ==> slot == 0 || slotToNode[slot - 1].None?
        invariant current.None? && ranges != [] ==> ranges[|ranges| - 1].end + 1 < slot
      {
        match (current, slotToNode[slot]) {
          case (Some(r), Some(node)) =>
            if r.node.id == node.id {
              current := Some(r.(end := slot));
            } else {
              ranges := ranges + [r];
              current := Some(Range(slot, slot, node));
            }
          case (Some(r), None) =>
            ranges := ranges + [r];
            current := None;
          case (None, Some(node)) =>
            current := Some(Range(slot, slot, node));
          case (None, None) =>
        }
        slot := slot + 1;
      }
      if current.Some? {
        ranges := ranges + [current.value];
      }
    }

    /** `format_cluster_slots`: the one canonical encoding of the slot table. */
    method FormatClusterSlots() returns (reply: Value, ghost ranges: seq<Range>)
      ensures Canonical(ranges, slotToNode, |slotToNode|)
      ensures TotalLength(ranges) == CountAssigned(slotToNode, |slotToNode|)
      ensures Tells(reply, slotToNode)
      ensures reply == Array(seq(|ranges|, i requires 0 <= i < |ranges| => RangeEntry(ranges[i])))
    {
      hide Canonical, Runs, TotalLength, CountAssigned, Tells, RangeEntry;
      var rs := CollectRanges();
      ranges := rs;
      RunsCanonical(slotToNode, |slotToNode|);
      LengthsAddUp(slotToNode, |slotToNode|);
      var elements := Render(rs);
      reply := Array(elements);
      ReplyTells(rs, slotToNode, reply);
    }
  }

  method Render(rs: seq<Range>) returns (elements: seq<Value>)
    ensures elements == seq(|rs|, i requires 0 <= i < |rs| => RangeEntry(rs[i]))
  {
    elements := [];
    var i := 0;
    while i < |rs|
      invariant 0 <= i <= |rs| && |elements| == i
      invariant forall j :: 0 <= j < i ==> elements[j] == RangeEntry(rs[j])
    {
      elements := elements + [RangeEntry(rs[i])];
      i := i + 1;
    }
  }
}
