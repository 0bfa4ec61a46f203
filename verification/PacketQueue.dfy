/** ffplay's PacketQueue: a linked list of packets, each marked with the serial of the flush packet
    it follows. */
module PacketQueue {

  /** flush marks the special packet that starts a new serial. */
  datatype Packet = Packet(flush: bool, size: nat, duration: int, content: int)

  datatype Entry = Entry(pkt: Packet, serial: int)

  // ---------- the queue as a value ----------

  datatype Queue = Queue(entries: seq<Entry>, serial: int, abort: bool)

  /** packet_queue_init: nothing gets in before the queue is started. */
  const INITIAL := Queue([], 0, true)

  function Put(q: Queue, pkt: Packet): Queue {
    if q.abort then q
    else
      var serial := if pkt.flush then q.serial + 1 else q.serial;
      q.(entries := q.entries + [Entry(pkt, serial)], serial := serial)
  }

  function Flush(q: Queue): Queue {
    q.(entries := [])
  }

  function Abort(q: Queue): Queue {
    q.(abort := true)
  }

  /** packet_queue_start, with the flush packet it queues. */
  function Start(q: Queue, flushPkt: Packet): Queue {
    Put(q.(abort := false), flushPkt)
  }

  function Take(q: Queue): Queue
    requires q.entries != []
  {
    q.(entries := q.entries[1..])
  }

  // ---------- serials along the queue ----------

  function Flushes(es: seq<Entry>): nat {
    if es == [] then 0 else (if es[0].pkt.flush then 1 else 0) + Flushes(es[1..])
  }

  /** Every packet's serial falls short of the queue's by the number of flush packets behind it. */
  ghost predicate Numbered(q: Queue) {
    forall i | 0 <= i < |q.entries| :: q.entries[i].serial + Flushes(q.entries[i + 1..]) == q.serial
  }

  lemma {:induction false} FlushesAppend(es: seq<Entry>, e: Entry)
    ensures Flushes(es + [e]) == Flushes(es) + if e.pkt.flush then 1 else 0
  {
    if es != [] {
      FlushesAppend(es[1..], e);
      assert (es + [e])[1..] == es[1..] + [e];
    } else {
      assert es + [e] == [e];
      assert [e][1..] == [];
    }
  }

  lemma {:induction false} PutNumbered(q: Queue, pkt: Packet)
    requires Numbered(q)
    ensures Numbered(Put(q, pkt))
  {
    var r := Put(q, pkt);
    if !q.abort {
      var e := r.entries[|q.entries|];
      forall i | 0 <= i < |r.entries|
        ensures r.entries[i].serial + Flushes(r.entries[i + 1..]) == r.serial
      {
        if i < |q.entries| {
          assert r.entries[i + 1..] == q.entries[i + 1..] + [e];
          FlushesAppend(q.entries[i + 1..], e);
        }
      }
    }
  }

  lemma {:induction false} TakeNumbered(q: Queue)
    requires Numbered(q) && q.entries != []
    ensures Numbered(Take(q))
  {
    forall i | 0 <= i < |q.entries| - 1
      ensures q.entries[1..][i].serial + Flushes(q.entries[1..][i + 1..]) == q.serial
    {
      assert q.entries[1..][i + 1..] == q.entries[i + 2..];
    }
  }

  ghost predicate Ordered(q: Queue) {
    forall i, j | 0 <= i < j < |q.entries| :: q.entries[i].serial <= q.entries[j].serial
  }

  lemma {:induction false} SerialsOrdered(q: Queue)
    requires Numbered(q)
    ensures Ordered(q)
  {
    forall i, j | 0 <= i < j < |q.entries|
      ensures q.entries[i].serial <= q.entries[j].serial
    {
      var behind := q.entries[i + 1..];
      FlushesSplit(behind, j - i);
      assert behind[j - i..] == q.entries[j + 1..];
    }
  }

  /** The packets with the queue's own serial are exactly those with no flush packet behind them:
      those from the latest flush packet on. */
  lemma {:induction false} CurrentIff(q: Queue, i: nat)
    requires Numbered(q) && i < |q.entries|
    ensures q.entries[i].serial == q.serial <==> forall k | i < k < |q.entries| :: !q.entries[k].pkt.flush
  {
    var behind := q.entries[i + 1..];
    NoFlushes(behind);
    if k :| i < k < |q.entries| && q.entries[k].pkt.flush {
      assert behind[k - (i + 1)].pkt.flush;
    } else {
      assert forall k | 0 <= k < |behind| :: behind[k] in behind && !behind[k].pkt.flush;
    }
  }

  lemma {:induction false} FlushesSplit(es: seq<Entry>, n: nat)
    requires n <= |es|
    ensures Flushes(es) >= Flushes(es[n..])
    decreases n
  {
    if n > 0 {
      FlushesSplit(es[1..], n - 1);
      assert es[1..][n - 1..] == es[n..];
    } else {
      assert es[n..] == es;
    }
  }

  lemma {:induction false} NoFlushes(es: seq<Entry>)
    ensures Flushes(es) == 0 <==> forall k | 0 <= k < |es| :: !es[k].pkt.flush
  {
    if es != [] {
      NoFlushes(es[1..]);
      assert forall k | 1 <= k < |es| :: es[k] == es[1..][k - 1];
    }
  }

  /** What can happen to a queue. */
  datatype Op = OpPut(pkt: Packet) | OpTake | OpFlush | OpAbort | OpStart(flushPkt: Packet)

  function Apply(q: Queue, op: Op): Queue {
    match op
    case OpPut(pkt) => Put(q, pkt)
    case OpTake => if q.entries == [] then q else Take(q)
    case OpFlush => Flush(q)
    case OpAbort => Abort(q)
    case OpStart(pkt) => Start(q, pkt)
  }

  function AfterAll(ops: seq<Op>): Queue {
    if ops == [] then INITIAL else Apply(AfterAll(ops[..|ops| - 1]), ops[|ops| - 1])
  }

  /** The flush packets that the queue accepted. */
  function FlushesQueued(ops: seq<Op>): nat {
    if ops == [] then 0
    else
      var before := FlushesQueued(ops[..|ops| - 1]);
      match ops[|ops| - 1]
      case OpPut(pkt) => if pkt.flush && !AfterAll(ops[..|ops| - 1]).abort then before + 1 else before
      case OpStart(pkt) => if pkt.flush then before + 1 else before
      case _ => before
  }

  /** After every sequence of operations the queue's serial is the number of flush packets queued so
      far, a packet's serial is the number of those queued up to it, and serials never decrease. */
  lemma {:induction false} AlwaysNumbered(ops: seq<Op>)
    ensures Numbered(AfterAll(ops)) && AfterAll(ops).serial == FlushesQueued(ops) && Ordered(AfterAll(ops))
  {
    if ops != [] {
      var q := AfterAll(ops[..|ops| - 1]);
      AlwaysNumbered(ops[..|ops| - 1]);
      match ops[|ops| - 1] {
        case OpPut(pkt) => PutNumbered(q, pkt);
        case OpTake => if q.entries != [] { TakeNumbered(q); }
        case OpFlush =>
        case OpAbort =>
        case OpStart(pkt) => PutNumbered(q.(abort := false), pkt);
      }
    }
    SerialsOrdered(AfterAll(ops));
  }

  // ---------- first in, first out ----------

  /** Whether the queue has been aborted and not started again. */
  function Stopped(ops: seq<Op>): bool {
    if ops == [] then true
    else
      match ops[|ops| - 1]
      case OpAbort => true
      case OpStart(_) => false
      case _ => Stopped(ops[..|ops| - 1])
  }

  /** The packets put in since the queue was last emptied; none while it is stopped. */
  function PutIn(ops: seq<Op>): seq<Packet> {
    if ops == [] then []
    else
      var front := ops[..|ops| - 1];
      match ops[|ops| - 1]
      case OpPut(pkt) => if Stopped(front) then PutIn(front) else PutIn(front) + [pkt]
      case OpStart(pkt) => PutIn(front) + [pkt]
      case OpFlush => []
      case _ => PutIn(front)
  }

  /** The packets taken out since the queue was last emptied. */
  function TakenOut(ops: seq<Op>): seq<Packet> {
    if ops == [] then []
    else
      var front := ops[..|ops| - 1];
      match ops[|ops| - 1]
      case OpTake =>
        TakenOut(front) + if AfterAll(front).entries == [] then [] else [AfterAll(front).entries[0].pkt]
      case OpFlush => []
      case _ => TakenOut(front)
  }

  function Packets(es: seq<Entry>): (ps: seq<Packet>)
    ensures |ps| == |es| && forall i | 0 <= i < |es| :: ps[i] == es[i].pkt
  {
    seq(|es|, i requires 0 <= i < |es| => es[i].pkt)
  }

  /** The packets taken out and those still there are the packets put in, in order and unchanged. */
  lemma {:induction false} FirstInFirstOut(ops: seq<Op>)
    ensures AfterAll(ops).abort == Stopped(ops)
    ensures TakenOut(ops) + Packets(AfterAll(ops).entries) == PutIn(ops)
  {
    if ops != [] {
      var front := ops[..|ops| - 1];
      var es := AfterAll(front).entries;
      FirstInFirstOut(front);
      match ops[|ops| - 1] {
        case OpPut(pkt) => PacketsLast(TakenOut(front), es, Entry(pkt, AfterAll(ops).serial));
        case OpStart(pkt) => PacketsLast(TakenOut(front), es, Entry(pkt, AfterAll(ops).serial));
        case OpTake =>
          if es != [] {
            PacketsFirst(TakenOut(front), es);
          }
        case OpFlush =>
        case OpAbort =>
      }
    }
  }

  lemma {:induction false} PacketsLast(taken: seq<Packet>, es: seq<Entry>, e: Entry)
    ensures taken + Packets(es + [e]) == (taken + Packets(es)) + [e.pkt]
  {
    assert Packets(es + [e]) == Packets(es) + [e.pkt];
  }

  lemma {:induction false} PacketsFirst(taken: seq<Packet>, es: seq<Entry>)
    requires es != []
    ensures (taken + [es[0].pkt]) + Packets(es[1..]) == taken + Packets(es)
  {
    assert Packets(es) == [es[0].pkt] + Packets(es[1..]);
  }

  // ---------- the linked list ----------

  function TotalSize(es: seq<Entry>, overhead: nat): int {
    if es == [] then 0 else es[0].pkt.size + overhead + TotalSize(es[1..], overhead)
  }

  function TotalDuration(es: seq<Entry>): int {
    if es == [] then 0 else es[0].pkt.duration + TotalDuration(es[1..])
  }

  lemma {:induction false} TotalsAppend(es: seq<Entry>, e: Entry, overhead: nat)
    ensures TotalSize(es + [e], overhead) == TotalSize(es, overhead) + e.pkt.size + overhead
    ensures TotalDuration(es + [e]) == TotalDuration(es) + e.pkt.duration
  {
    if es != [] {
      TotalsAppend(es[1..], e, overhead);
      assert (es + [e])[1..] == es[1..] + [e];
    } else {
      assert es + [e] == [e];
      assert [e][1..] == [];
    }
  }

  class Node {
    const pkt: Packet
    const serial: int
    var next: Node?

    constructor (pkt: Packet, serial: int)
      ensures this.pkt == pkt && this.serial == serial && next == null
    {
      this.pkt, this.serial, next := pkt, serial, null;
    }
  }

  /** The next pointers run along the nodes. */
  ghost predicate Chain(nodes: seq<Node>)
    reads nodes
  {
    && (forall i, j | 0 <= i < j < |nodes| :: nodes[i] != nodes[j])
    && (forall i {:trigger nodes[i].next} | 0 <= i < |nodes| :: nodes[i].next == After(nodes, i))
  }

  /** The node after place i. */
  function After(nodes: seq<Node>, i: nat): Node?
    requires i < |nodes|
  {
    if i + 1 < |nodes| then nodes[i + 1] else null
  }

  function Entries(nodes: seq<Node>): (es: seq<Entry>)
    ensures |es| == |nodes| && forall i | 0 <= i < |nodes| :: es[i] == Entry(nodes[i].pkt, nodes[i].serial)
  {
    seq(|nodes|, i requires 0 <= i < |nodes| => Entry(nodes[i].pkt, nodes[i].serial))
  }

  lemma {:induction false} ChainTail(nodes: seq<Node>)
    requires Chain(nodes) && nodes != []
    ensures Chain(nodes[1..]) && Entries(nodes[1..]) == Entries(nodes)[1..]
    ensures nodes[0].next == After(nodes, 0)
  {
    forall i | 0 <= i < |nodes[1..]|
      ensures nodes[1..][i].next == After(nodes[1..], i)
    {
      assert nodes[1..][i] == nodes[i + 1] && nodes[i + 1].next == After(nodes, i + 1);
    }
  }

  /** The last node has just been linked to a new one. */
  lemma {:induction false} ChainAppend(nodes: seq<Node>, node: Node)
    requires forall i, j | 0 <= i < j < |nodes| :: nodes[i] != nodes[j]
    requires node !in nodes && node.next == null
    requires forall i {:trigger nodes[i].next} | 0 <= i < |nodes| :: nodes[i].next == After(nodes + [node], i)
    ensures Chain(nodes + [node])
    ensures Entries(nodes + [node]) == Entries(nodes) + [Entry(node.pkt, node.serial)]
  {
  }

  datatype Got = Aborted | Nothing | Got(pkt: Packet, serial: int)

  class PacketQueue {
    var first: Node?
    var last: Node?
    var nbPackets: int
    var size: int
    var duration: int
    var abortRequest: bool
    var serial: int
    /** sizeof(MyAVPacketList) */
    const overhead: nat
    ghost var nodes: seq<Node>

    ghost predicate Linked()
      reads this`first, this`last, this`nodes, nodes
    {
      && Chain(nodes)
      && (if nodes == [] then first == null && last == null
          else first == nodes[0] && last == nodes[|nodes| - 1])
    }

    ghost predicate Valid()
      reads this, nodes
    {
      && Linked()
      && nbPackets == |nodes|
      && size == TotalSize(Entries(nodes), overhead)
      && duration == TotalDuration(Entries(nodes))
    }

    ghost function State(): Queue
      reads this
    {
      Queue(Entries(nodes), serial, abortRequest)
    }

    constructor (overhead: nat)
      ensures Valid() && State() == INITIAL && nodes == []
    {
      this.overhead := overhead;
      first, last, nbPackets, size, duration, abortRequest, serial := null, null, 0, 0, 0, true, 0;
      nodes := [];
    }

    /** packet_queue_put; false when the queue has been aborted. */
    method PutPacket(pkt: Packet) returns (ok: bool)
      requires Valid()
      modifies this, nodes
      ensures Valid() && State() == Put(old(State()), pkt) && (ok <==> !old(abortRequest))
      ensures if ok then last != null && fresh(last) && nodes == old(nodes) + [last] else nodes == old(nodes)
    {
      if abortRequest {
        return false;
      }
      if pkt.flush {
        serial := serial + 1;
      }
      var node := new Node(pkt, serial);
      CountNode(node);
      LinkLast(node);
      return true;
    }

    /** Adds a node that is not linked yet to the three totals. */
    method CountNode(node: Node)
      requires Valid()
      modifies this`nbPackets, this`size, this`duration
      ensures nbPackets == |nodes| + 1
      ensures size == TotalSize(Entries(nodes) + [Entry(node.pkt, node.serial)], overhead)
      ensures duration == TotalDuration(Entries(nodes) + [Entry(node.pkt, node.serial)])
    {
      TotalsAppend(Entries(nodes), Entry(node.pkt, node.serial), overhead);
      nbPackets := nbPackets + 1;
      size := size + node.pkt.size + overhead;
      duration := duration + node.pkt.duration;
    }

    /** Puts a new node behind the last one. */
    method LinkLast(node: Node)
      requires Linked() && node !in nodes && node.next == null
      modifies this`first, this`last, this`nodes, nodes
      ensures Linked() && nodes == old(nodes) + [node]
      ensures Entries(nodes) == old(Entries(nodes)) + [Entry(node.pkt, node.serial)]
    {
      ghost var all := nodes + [node];
      assert forall i {:trigger nodes[i].next} | 0 <= i < |nodes| - 1 :: nodes[i].next == After(all, i);
      if last == null {
        first := node;
      } else {
        last.next := node;
      }
      last := node;
      ChainAppend(nodes, node);
      nodes := all;
    }

    /** packet_queue_get without its wait. */
    method GetPacket() returns (r: Got)
      requires Valid()
      modifies this
      ensures Valid() && (if r.Got? then old(nodes) != [] && nodes == old(nodes)[1..] else nodes == old(nodes))
      ensures r.Aborted? <==> old(abortRequest)
      ensures r.Nothing? <==> !old(abortRequest) && old(State()).entries == []
      ensures !r.Got? ==> State() == old(State())
      ensures r.Got? ==> old(State()).entries != []
                         && Entry(r.pkt, r.serial) == old(State()).entries[0] && State() == Take(old(State()))
    {
      if abortRequest {
        return Aborted;
      }
      var node := first;
      if node == null {
        return Nothing;
      }
      ChainTail(nodes);
      first := node.next;
      if first == null {
        last := null;
      }
      nbPackets := nbPackets - 1;
      size := size - (node.pkt.size + overhead);
      duration := duration - node.pkt.duration;
      nodes := nodes[1..];
      return Got(node.pkt, node.serial);
    }

    method FlushPackets()
      requires Valid()
      modifies this
      ensures Valid() && State() == Flush(old(State())) && nodes == []
    {
      first, last, nbPackets, size, duration := null, null, 0, 0, 0;
      nodes := [];
    }

    method AbortQueue()
      requires Valid()
      modifies this
      ensures Valid() && State() == Abort(old(State())) && nodes == old(nodes)
    {
      abortRequest := true;
    }

    method StartQueue(flushPkt: Packet)
      requires Valid()
      modifies this, nodes
      ensures Valid() && State() == Start(old(State()), flushPkt)
      ensures last != null && fresh(last) && nodes == old(nodes) + [last]
    {
      abortRequest := false;
      var ok := PutPacket(flushPkt);
    }
  }
}
