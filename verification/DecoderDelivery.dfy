/** No packet of the current serial gets lost between the queue and the codec. */
module DecoderDelivery {
  import opened Basics
  import opened PacketQueue
  import opened DecoderSerials

  // ---------- what a run was given ----------

  /** Whether the queue is aborted after these steps. */
  function Aborted(steps: seq<Step>): bool {
    if steps == [] then true
    else
      match steps[|steps| - 1]
      case AbortQueue => true
      case StartQueue(_) => false
      case _ => Aborted(steps[..|steps| - 1])
  }

  /** The packets that other threads have queued since the last flush packet; an aborted queue takes
      none. */
  function Given(steps: seq<Step>): seq<Packet> {
    if steps == [] then []
    else
      var front := steps[..|steps| - 1];
      match steps[|steps| - 1]
      case PutPacket(pkt) => if Aborted(front) then Given(front) else if pkt.flush then [] else Given(front) + [pkt]
      case StartQueue(_) => []
      case _ => Given(front)
  }

  // ---------- where they are ----------

  /** The entry is a packet for the codec under this serial. */
  predicate Counts(e: Entry, serial: int) {
    !e.pkt.flush && e.serial == serial
  }

  function Queued(es: seq<Entry>, serial: int): seq<Packet> {
    if es == [] then []
    else (if Counts(es[0], serial) then [es[0].pkt] else []) + Queued(es[1..], serial)
  }

  /** The packet that the decoder has in hand or keeps for later. */
  function InHand(d: Decoder, serial: int): seq<Packet> {
    if d.hold.Some? then (if Counts(d.hold.value, serial) then [d.hold.value.pkt] else [])
    else if d.pending.Some? && Counts(d.pending.value, serial) then [d.pending.value.pkt]
    else []
  }

  /** The packets sent for good. */
  function Done(trace: seq<Event>, serial: int): seq<Packet> {
    if trace == [] then []
    else
      var last := trace[|trace| - 1];
      Done(trace[..|trace| - 1], serial)
      + if last.Sent? && !last.kept && Counts(last.entry, serial) then [last.entry.pkt] else []
  }

  lemma {:induction false} DoneNext(trace: seq<Event>, e: Event, serial: int)
    ensures Done(trace + [e], serial)
            == Done(trace, serial) + if e.Sent? && !e.kept && Counts(e.entry, serial) then [e.entry.pkt] else []
  {
    assert (trace + [e])[..|trace|] == trace;
  }

  lemma {:induction false} QueuedFirst(e: Entry, es: seq<Entry>, serial: int)
    ensures Queued([e] + es, serial) == (if Counts(e, serial) then [e.pkt] else []) + Queued(es, serial)
  {
    assert ([e] + es)[1..] == es;
  }

  lemma {:induction false} QueuedNext(es: seq<Entry>, e: Entry, serial: int)
    ensures Queued(es + [e], serial) == Queued(es, serial) + if Counts(e, serial) then [e.pkt] else []
    decreases es
  {
    if es == [] {
      QueuedFirst(e, [], serial);
      assert es + [e] == [e] + [];
    } else {
      assert es + [e] == [es[0]] + (es[1..] + [e]);
      QueuedFirst(es[0], es[1..] + [e], serial);
      QueuedNext(es[1..], e, serial);
    }
  }

  /** Nothing carries a serial that has not begun yet. */
  lemma {:induction false} NoneQueued(from: int, es: seq<Entry>, serial: int)
    requires Stepped(from, es) && LastSerial(from, es) < serial
    ensures Queued(es, serial) == []
    decreases es
  {
    if es != [] {
      SteppedBounds(es[0].serial, es[1..]);
      NoneQueued(es[0].serial, es[1..], serial);
    }
  }

  lemma {:induction false} NoneDone(trace: seq<Event>, serial: int)
    requires Watch(trace).Seen? && Watch(trace).high < serial
    ensures Done(trace, serial) == []
    decreases trace
  {
    if trace != [] {
      NoneDone(trace[..|trace| - 1], serial);
    }
  }

  // ---------- nothing is lost ----------

  ghost function Ahead(s: System): seq<Packet> {
    Done(s.trace, s.queue.serial) + InHand(s.dec, s.queue.serial)
  }

  /** Sent for good, in hand and queued, in this order, are the packets given; once the queue has been
      emptied, those before the gap. */
  ghost predicate Kept(s: System, given: seq<Packet>) {
    if s.owed then Ahead(s) <= given else Ahead(s) + Queued(s.queue.entries, s.queue.serial) == given
  }

  /** The state after a flush packet has been queued. */
  lemma {:induction false} FlushBegins(s: System, t: System)
    requires QueueInv(s) && DecInv(s)
    requires t.trace == s.trace && t.dec == s.dec && t.queue.serial == s.queue.serial + 1
    requires exists pkt: Packet :: pkt.flush && t.queue.entries == s.queue.entries + [Entry(pkt, t.queue.serial)]
    ensures Kept(t, [])
  {
    var pkt: Packet :| pkt.flush && t.queue.entries == s.queue.entries + [Entry(pkt, t.queue.serial)];
    NoneQueued(s.dec.serial, s.queue.entries, t.queue.serial);
    NoneDone(s.trace, t.queue.serial);
    QueuedNext(s.queue.entries, Entry(pkt, t.queue.serial), t.queue.serial);
  }

  lemma {:induction false} PutKeeps(s: System, pkt: Packet, given: seq<Packet>)
    requires QueueInv(s) && DecInv(s) && Kept(s, given) && Enabled(s, PutPacket(pkt))
    ensures Kept(Next(s, PutPacket(pkt)), if s.queue.abort then given else if pkt.flush then [] else given + [pkt])
  {
    var t := Next(s, PutPacket(pkt));
    if !s.queue.abort {
      if pkt.flush {
        assert t.queue.entries == s.queue.entries + [Entry(pkt, t.queue.serial)];
        FlushBegins(s, t);
      } else {
        QueuedNext(s.queue.entries, Entry(pkt, s.queue.serial), s.queue.serial);
      }
    }
  }

  lemma {:induction false} StartKeeps(s: System, pkt: Packet)
    requires QueueInv(s) && DecInv(s) && pkt.flush
    ensures Kept(Next(s, StartQueue(pkt)), [])
  {
    var t := Next(s, StartQueue(pkt));
    assert t.queue.entries == s.queue.entries + [Entry(pkt, t.queue.serial)];
    FlushBegins(s, t);
  }

  lemma {:induction false} UseKeepsAhead(s: System, answer: Accepted)
    requires DecInv(s) && Enabled(s, UsePacket(answer))
    ensures Ahead(Next(s, UsePacket(answer))) == Ahead(s)
  {
    DoneNext(s.trace, Sent(s.dec.hold.value, answer == TakenAndKept), s.queue.serial);
  }

  lemma {:induction false} FlushIsNotDone(trace: seq<Event>, serial: int)
    ensures Done(trace + [CodecFlush], serial) == Done(trace, serial)
  {
    DoneNext(trace, CodecFlush, serial);
  }

  lemma {:induction false} FlushKeepsAhead(s: System)
    requires DecInv(s) && Enabled(s, UseFlush)
    ensures Ahead(Next(s, UseFlush)) == Ahead(s)
  {
    FlushIsNotDone(s.trace, s.queue.serial);
  }

  lemma {:induction false} DrainKeepsAhead(s: System, result: Drained)
    requires Enabled(s, Drain(result))
    ensures Ahead(Next(s, Drain(result))) == Ahead(s)
  {
    var t := Next(s, Drain(result));
    DrainChanges(s, result);
    if t.trace != s.trace {
      FlushIsNotDone(s.trace, s.queue.serial);
    }
  }

  lemma {:induction false} DrainChanges(s: System, result: Drained)
    requires Enabled(s, Drain(result))
    ensures var t := Next(s, Drain(result));
            && t.queue == s.queue && t.dec.hold == s.dec.hold && t.dec.pending == s.dec.pending
            && (t.trace == s.trace || t.trace == s.trace + [CodecFlush])
  {
  }

  lemma {:induction false} StepKeeps(s: System, step: Step, given: seq<Packet>)
    requires QueueInv(s) && DecInv(s) && Kept(s, given) && Enabled(s, step) && !step.PutPacket? && !step.StartQueue?
    ensures Kept(Next(s, step), given)
  {
    match step {
      case UseFlush => FlushKeepsAhead(s);
      case UsePacket(answer) => UseKeepsAhead(s, answer);
      case Drain(result) => DrainKeepsAhead(s, result);
      case _ =>
    }
  }

  /** The last step of a run. */
  lemma {:induction false} LastKeeps(steps: seq<Step>, r: System)
    requires steps != [] && QueueInv(r) && DecInv(r) && Enabled(r, steps[|steps| - 1])
    requires r.queue.abort == Aborted(steps[..|steps| - 1]) && Kept(r, Given(steps[..|steps| - 1]))
    ensures Kept(Next(r, steps[|steps| - 1]), Given(steps))
  {
    var n := |steps| - 1;
    match steps[n] {
      case PutPacket(pkt) => PutKeeps(r, pkt, Given(steps[..n]));
      case StartQueue(pkt) => StartKeeps(r, pkt);
      case _ => StepKeeps(r, steps[n], Given(steps[..n]));
    }
  }

  lemma {:induction false} AbortedNext(steps: seq<Step>, r: System)
    requires steps != [] && Enabled(r, steps[|steps| - 1]) && r.queue.abort == Aborted(steps[..|steps| - 1])
    ensures Next(r, steps[|steps| - 1]).queue.abort == Aborted(steps)
  {
  }

  lemma {:induction false} RunKept(steps: seq<Step>, s: System)
    requires Run(steps, s)
    ensures s.queue.abort == Aborted(steps) && Kept(s, Given(steps))
    decreases |steps|
  {
    if steps == [] {
      assert Kept(Init(), []);
    } else {
      var n := |steps| - 1;
      var r :| Run(steps[..n], r) && Enabled(r, steps[n]) && s == Next(r, steps[n]);
      RunInv(steps[..n], r);
      RunKept(steps[..n], r);
      AbortedNext(steps, r);
      LastKeeps(steps, r);
    }
  }

  /** In every run, the packets queued since the last flush packet have been sent to the codec, are in
      the decoder's hands, or wait in the queue: all of them, once each and in this order. Once the
      queue has been emptied, only those taken out of it before are left. */
  lemma {:induction false} NothingIsLost(steps: seq<Step>, s: System)
    requires Run(steps, s)
    ensures var serial := s.queue.serial;
            var ahead := Done(s.trace, serial) + InHand(s.dec, serial);
            && ahead <= Given(steps)
            && (!s.owed ==> ahead + Queued(s.queue.entries, serial) == Given(steps))
  {
    RunKept(steps, s);
  }

  predicate ByDecoder(step: Step) {
    !(step.PutPacket? || step.EmptyQueue? || step.AbortQueue? || step.StartQueue?)
  }

  /** The decoding thread never stands still, except in front of an empty queue that is not aborted. */
  lemma {:induction false} WaitsOnlyForPackets(steps: seq<Step>, s: System)
    requires Run(steps, s)
    ensures (exists step :: ByDecoder(step) && Enabled(s, step))
            <==> !(s.dec.at == Fetching && s.dec.pending.None? && !s.queue.abort && s.queue.entries == [])
  {
    RunInv(steps, s);
    var d := s.dec;
    assert d.at == Top ==> Enabled(s, EnterLoop);
    assert d.at == Draining ==> Enabled(s, Drain(Again));
    assert d.at == Checking ==> Enabled(s, Check);
    assert d.at == Using ==> Enabled(s, UseFlush) || Enabled(s, UsePacket(Taken));
    assert d.at == Fetching ==>
      (d.pending.Some? || s.queue.abort || s.queue.entries != [] <==> Enabled(s, FetchPending) || Enabled(s, Fetch) || Enabled(s, FetchAborted));
  }
}
