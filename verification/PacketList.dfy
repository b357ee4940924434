/** The packets of one chunk as a plain list of slots. */
module Slots {
  import opened Bytes
  import opened Geometry
  import opened Ranges

  datatype Slot = Slot(received: bool, valid: bool, data: seq<byte>) {
    predicate Good() { received && valid }
  }

  const EMPTY_SLOT := Slot(false, false, [])

  function Fresh(n: nat): (s: seq<Slot>)
    ensures |s| == n && forall i | 0 <= i < n :: s[i] == EMPTY_SLOT
  {
    seq(n, i => EMPTY_SLOT)
  }

  /** How many packets have arrived intact. */
  function CountGood(slots: seq<Slot>): (n: nat)
    ensures n <= |slots|
  {
    if slots == [] then 0
    else CountGood(slots[..|slots| - 1]) + if slots[|slots| - 1].Good() then 1 else 0
  }

  predicate Complete(slots: seq<Slot>)
  {
    slots != [] && forall i | 0 <= i < |slots| :: slots[i].Good()
  }

  /** The slots a NAK has to ask for. */
  function Missing(slots: seq<Slot>): (m: seq<bool>)
    ensures |m| == |slots|
    ensures forall i | 0 <= i < |slots| :: m[i] == !slots[i].Good()
  {
    seq(|slots|, i requires 0 <= i < |slots| => !slots[i].Good())
  }

  function Payloads(slots: seq<Slot>): (ps: seq<seq<byte>>)
    ensures |ps| == |slots|
  {
    seq(|slots|, i requires 0 <= i < |slots| => slots[i].data)
  }

  function Assembled(slots: seq<Slot>): seq<byte> { Concat(Payloads(slots)) }

  function Inserted(slots: seq<Slot>, p: nat, data: seq<byte>, valid: bool): seq<Slot>
  {
    if p < |slots| then slots[p := Slot(true, valid, data)] else slots
  }

  /** Overwriting one slot changes the count by that slot alone. */
  lemma {:induction false} CountUpdate(slots: seq<Slot>, p: nat, s: Slot)
    requires p < |slots|
    ensures CountGood(slots[p := s]) + (if slots[p].Good() then 1 else 0)
         == CountGood(slots) + (if s.Good() then 1 else 0)
  {
    var n := |slots| - 1;
    if p == n {
      assert slots[p := s][..n] == slots[..n];
    } else {
      CountUpdate(slots[..n], p, s);
      assert slots[p := s][..n] == slots[..n][p := s];
    }
  }

  lemma {:induction false} CountFresh(n: nat)
    ensures CountGood(Fresh(n)) == 0
  {
    if n > 0 {
      CountFresh(n - 1);
      assert Fresh(n)[..n - 1] == Fresh(n - 1);
    }
  }

  /** The running count reaches the length exactly when no slot is missing. */
  lemma {:induction false} CountFull(slots: seq<Slot>)
    ensures CountGood(slots) == |slots| <==> forall i | 0 <= i < |slots| :: slots[i].Good()
  {
    if slots != [] {
      CountFull(slots[..|slots| - 1]);
    }
  }

  lemma {:induction false} AssembledPrefix(slots: seq<Slot>, k: nat)
    requires k < |slots|
    ensures Concat(Payloads(slots)[..k + 1]) == Concat(Payloads(slots)[..k]) + slots[k].data
  {
    assert Payloads(slots)[..k + 1][..k] == Payloads(slots)[..k];
  }
}

/** The linked list with its index array, valid counter and scans. */
module PacketLists {
  import opened Bytes
  import opened Geometry
  import opened Ranges
  import opened Slots

  class PacketNode {
    var packetIndex: u32
    var received: bool
    var valid: bool
    var data: seq<byte>
    var prev: PacketNode?
    var next: PacketNode?

    constructor (i: u32)
      ensures packetIndex == i && !received && !valid && data == []
      ensures prev == null && next == null
    {
      packetIndex, received, valid, data := i, false, false, [];
      prev, next := null, null;
    }
  }

  class PacketList {
    var head: PacketNode?
    var tail: PacketNode?
    var totalPackets: u32
    var validCount: u32
    var index: seq<PacketNode>

    ghost var slots: seq<Slot>

    /** Node `i` of the chain knows its index and its two neighbours. */
    static ghost predicate NodeAt(nodes: seq<PacketNode>, i: nat)
      requires i < |nodes|
      reads nodes
    {
      && nodes[i].packetIndex == i
      && nodes[i].next == (if i + 1 < |nodes| then nodes[i + 1] else null)
      && nodes[i].prev == (if i > 0 then nodes[i - 1] else null)
    }

    static ghost predicate Distinct(nodes: seq<PacketNode>)
    {
      forall i, j | 0 <= i < j < |nodes| :: nodes[i] != nodes[j]
    }

    /** The nodes form one chain, in index order, in both directions. */
    ghost predicate Linked(nodes: seq<PacketNode>)
      reads this, nodes
    {
      && Distinct(nodes)
      && (forall i | 0 <= i < |nodes| :: NodeAt(nodes, i))
      && head == (if nodes == [] then null else nodes[0])
      && tail == (if nodes == [] then null else nodes[|nodes| - 1])
    }

    static ghost predicate Blank(node: PacketNode)
      reads node
    {
      !node.received && !node.valid && node.data == []
    }

    ghost predicate Holds(i: nat)
      requires i < |index| && i < |slots|
      reads this, index
    {
      index[i].received == slots[i].received && index[i].valid == slots[i].valid && index[i].data == slots[i].data
    }

    ghost predicate Valid()
      reads this, index
    {
      && Linked(index)
      && |index| == |slots| == totalPackets
      && (forall i | 0 <= i < |index| :: Holds(i))
      && validCount == CountGood(slots)
    }

    constructor ()
      ensures Valid() && slots == [] && index == []
    {
      head, tail, totalPackets, validCount, index := null, null, 0, 0, [];
      slots := [];
    }

    /** Frees the chain; `freed` lists the nodes in the order they are deleted. */
    method Clear() returns (ghost freed: seq<PacketNode>)
      requires Valid()
      modifies this
      ensures Valid() && slots == [] && index == []
      ensures freed == old(index)
    {
      freed := [];
      var cur := head;
      while cur != null
        invariant |freed| <= |index| && freed == index[..|freed|]
        invariant cur == if |freed| < |index| then index[|freed|] else null
        invariant Valid()
        decreases |index| - |freed|
      {
        assert NodeAt(index, |freed|);
        var next := cur.next;
        freed := freed + [cur];
        cur := next;
      }
      head, tail, totalPackets, validCount, index := null, null, 0, 0, [];
      slots := [];
    }

    /** One round of the allocation loop: chains `node` behind the tail. */
    method LinkLast(node: PacketNode, ghost nodes: seq<PacketNode>)
      requires Linked(nodes) && node !in nodes && node.packetIndex == |nodes|
      requires node.prev == null && node.next == null
      modifies `head, `tail, node`prev, nodes`next
      ensures Linked(nodes + [node])
    {
      if head == null {
        head, tail := node, node;
      } else {
        tail.next := node;
        node.prev := tail;
        tail := node;
      }
      ghost var all := nodes + [node];
      forall i | 0 <= i < |nodes|
        ensures NodeAt(all, i)
      {
        assert old(NodeAt(nodes, i));
        assert i + 1 < |nodes| ==> nodes[i] != nodes[|nodes| - 1];
      }
    }

    method Init(total: u32)
      requires Valid()
      modifies this
      ensures Valid() && slots == Fresh(total)
      ensures fresh(index)
    {
      ghost var freed := Clear();
      var nodes: seq<PacketNode> := [];
      for i := 0 to total
        invariant |nodes| == i && fresh(nodes)
        invariant Linked(nodes)
        invariant forall j | 0 <= j < i :: Blank(nodes[j])
      {
        var node := new PacketNode(i);
        assert Linked(nodes);
        LinkLast(node, nodes);
        nodes := nodes + [node];
      }
      totalPackets, validCount, index := total, 0, nodes;
      slots := Fresh(total);
      CountFresh(total);
      assert forall i | 0 <= i < |index| :: Blank(index[i]) ==> Holds(i);
    }

    method Insert(p: u32, data: seq<byte>, valid: bool) returns (ok: bool)
      requires Valid()
      modifies this, index
      ensures Valid() && index == old(index)
      ensures ok == (p < |slots|)
      ensures slots == Inserted(old(slots), p, data, valid)
    {
      if p >= totalPackets {
        return false;
      }
      var node := index[p];
      assert Holds(p);
      var wasValid := node.received && node.valid;
      StoreSlot(node, p, data, valid);
      label Stored:
      if valid && !wasValid {
        validCount := validCount + 1;
      } else if !valid && wasValid {
        validCount := validCount - 1;
      }
      forall i | 0 <= i < |index|
        ensures Holds(i)
      {
        assert old@Stored(Holds(i));
      }
      return true;
    }

    /** The three assignments to the node that a packet falls into. */
    method StoreSlot(node: PacketNode, p: u32, data: seq<byte>, valid: bool)
      requires Valid() && p < totalPackets && node == index[p]
      modifies `slots, node`received, node`valid, node`data
      ensures slots == old(slots)[p := Slot(true, valid, data)]
      ensures Linked(index) && forall i | 0 <= i < |index| :: Holds(i)
      ensures CountGood(slots) + (if old(node.received && node.valid) then 1 else 0)
           == validCount + (if valid then 1 else 0)
    {
      assert Holds(p);
      CountUpdate(slots, p, Slot(true, valid, data));
      slots := slots[p := Slot(true, valid, data)];
      node.received := true;
      node.valid := valid;
      node.data := data;
      forall i | 0 <= i < |index|
        ensures NodeAt(index, i)
      {
        assert old(NodeAt(index, i));
      }
      forall i | 0 <= i < |index|
        ensures Holds(i)
      {
        assert old(Holds(i));
        assert i != p ==> index[i] != index[p];
      }
    }

    method IsComplete() returns (complete: bool)
      requires Valid()
      ensures complete <==> Complete(slots)
    {
      CountFull(slots);
      complete := totalPackets > 0 && validCount == totalPackets;
    }

    method ComputeNakRanges() returns (ranges: seq<Range>)
      requires Valid()
      ensures ranges == Runs(Missing(slots))
      ensures Canonical(ranges, Missing(slots))
    {
      ghost var missing := Missing(slots);
      var rangeStart := -1;
      ranges := [];
      var i: u32 := 0;
      while i < totalPackets
        invariant i <= totalPackets
        invariant Scanned(missing, ranges, rangeStart, i)
      {
        assert Holds(i);
        ScanStep(missing, ranges, rangeStart, i);
        var node := index[i];
        var needsRetransmit := !node.received || !node.valid;
        if needsRetransmit && rangeStart == -1 {
          rangeStart := ToInt32(i);
        } else if !needsRetransmit && rangeStart != -1 {
          ranges := ranges + [Range(Wrap32(rangeStart), i - 1)];
          rangeStart := -1;
        }
        i := i + 1;
      }
      assert missing[..totalPackets] == missing;
      if rangeStart != -1 {
        ranges := ranges + [Range(Wrap32(rangeStart), totalPackets - 1)];
      }
      RunsCanonical(missing);
    }

    method Assemble() returns (result: seq<byte>)
      requires Valid()
      ensures result == Assembled(slots)
    {
      result := [];
      var cur := head;
      ghost var k := 0;
      while cur != null
        invariant k <= |index|
        invariant cur == if k < |index| then index[k] else null
        invariant result == Concat(Payloads(slots)[..k])
        decreases |index| - k
      {
        assert Holds(k) && NodeAt(index, k);
        AssembledPrefix(slots, k);
        result := result + cur.data;
        cur := cur.next;
        k := k + 1;
      }
      assert Payloads(slots)[..k] == Payloads(slots);
    }
  }
}
