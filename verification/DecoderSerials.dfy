/** decoder_decode_frame against a packet queue that other threads seek, fill, abort and restart. Each
    step reads or writes the shared queue once. */
module DecoderSerials {
  import opened Basics
  import opened PacketQueue

  /** What the codec is given, in order; a packet with the serial it was queued under. The decoder may
      keep a packet that the codec has taken, to send it again. */
  datatype Event = CodecFlush | Sent(entry: Entry, kept: bool)

  /** Where the decoding thread is: at the top of its loop, draining the codec, about to fetch a
      packet, about to compare its serial, or about to use it. */
  datatype At = Top | Draining | Fetching | Checking | Using

  /** The entries held and pending keep their own serials, which the source forgets; serial is the
      decoder's pkt_serial. */
  datatype Decoder = Decoder(at: At, hold: Option<Entry>, pending: Option<Entry>, serial: int, finished: int)

  /** owed: the queue has been emptied and no flush packet has been queued since. */
  datatype System = System(queue: Queue, owed: bool, dec: Decoder, trace: seq<Event>)

  datatype Drained = Again | Picture | EndOfStream | Failure
  datatype Accepted = Taken | Refused | TakenAndKept

  datatype Step =
    | PutPacket(pkt: Packet) | EmptyQueue | AbortQueue | StartQueue(flushPkt: Packet)
    | EnterLoop | Drain(result: Drained) | FetchPending | Fetch | FetchAborted | Check | UseFlush | UsePacket(answer: Accepted)

  /** packet_queue_init and decoder_init. */
  function Init(): System {
    System(INITIAL, true, Decoder(Top, None, None, -1, 0), [])
  }

  /** The other threads queue a flush packet before anything else once they have emptied the queue;
      an aborted queue takes nothing. */
  predicate Enabled(s: System, step: Step) {
    var q, d := s.queue, s.dec;
    match step
    case PutPacket(pkt) => s.owed && !pkt.flush ==> q.abort
    case EmptyQueue => true
    case AbortQueue => true
    case StartQueue(pkt) => pkt.flush
    case EnterLoop => d.at == Top
    case Drain(_) => d.at == Draining
    case FetchPending => d.at == Fetching && d.pending.Some?
    case Fetch => d.at == Fetching && d.pending.None? && !q.abort && q.entries != []
    case FetchAborted => d.at == Fetching && d.pending.None? && q.abort
    case Check => d.at == Checking
    case UseFlush => d.at == Using && d.hold.Some? && d.hold.value.pkt.flush
    case UsePacket(_) => d.at == Using && d.hold.Some? && !d.hold.value.pkt.flush
  }

  function Next(s: System, step: Step): System
    requires Enabled(s, step)
  {
    var q, d := s.queue, s.dec;
    match step
    case PutPacket(pkt) => s.(queue := Put(q, pkt), owed := s.owed && (q.abort || !pkt.flush))
    case EmptyQueue => s.(queue := Flush(q), owed := true)
    case AbortQueue => s.(queue := Abort(q))
    case StartQueue(pkt) => s.(queue := Start(q, pkt), owed := false)
    case EnterLoop => s.(dec := d.(at := if q.serial == d.serial then Draining else Fetching))
    case Drain(result) =>
      // an aborted queue or a finished frame ends the call; the next call starts at the top
      if q.abort then s.(dec := d.(at := Top))
      else if result == Again then s.(dec := d.(at := Fetching))
      else if result == Failure then s
      else if result == Picture then s.(dec := d.(at := Top))
      else s.(dec := d.(at := Top, finished := d.serial), trace := s.trace + [CodecFlush])
    case FetchPending => s.(dec := d.(at := Checking, hold := d.pending, pending := None))
    case Fetch =>
      var e := q.entries[0];
      s.(queue := Take(q), dec := d.(at := Checking, hold := Some(e), serial := e.serial))
    case FetchAborted => s.(dec := d.(at := Top))
    case Check =>
      if q.serial != d.serial then s.(dec := d.(at := Fetching, hold := None))
      else s.(dec := d.(at := Using))
    case UseFlush => s.(dec := d.(at := Top, hold := None, finished := 0), trace := s.trace + [CodecFlush])
    case UsePacket(answer) =>
      System(q, s.owed, d.(at := Top, hold := None, pending := if answer == Taken then None else d.hold),
             if answer == Refused then s.trace else s.trace + [Sent(d.hold.value, answer == TakenAndKept)])
  }

  // ---------- what the trace must look like ----------

  /** Serials of packets sent never decrease, and a codec flush separates different ones. */
  ghost predicate Orderly(trace: seq<Event>) {
    forall i, j | 0 <= i < j < |trace| && trace[i].Sent? && trace[j].Sent? ::
      && trace[i].entry.serial <= trace[j].entry.serial
      && (trace[i].entry.serial != trace[j].entry.serial ==> exists k :: i < k < j && trace[k].CodecFlush?)
  }

  /** Every packet sent since the last codec flush has serial x. */
  ghost predicate OnlySince(trace: seq<Event>, x: int) {
    forall i | 0 <= i < |trace| && trace[i].Sent? && trace[i].entry.serial != x ::
      exists k :: i < k < |trace| && trace[k].CodecFlush?
  }

  ghost predicate SentUpTo(trace: seq<Event>, x: int) {
    forall i | 0 <= i < |trace| && trace[i].Sent? :: trace[i].entry.serial <= x
  }

  lemma {:induction false} OrderlyFlush(trace: seq<Event>, x: int)
    requires Orderly(trace) && SentUpTo(trace, x)
    ensures Orderly(trace + [CodecFlush]) && OnlySince(trace + [CodecFlush], x) && SentUpTo(trace + [CodecFlush], x)
  {
    var t := trace + [CodecFlush];
    assert t[|trace|].CodecFlush?;
    forall i, j | 0 <= i < j < |t| && t[i].Sent? && t[j].Sent?
      ensures t[i].entry.serial <= t[j].entry.serial
      ensures t[i].entry.serial != t[j].entry.serial ==> exists k :: i < k < j && t[k].CodecFlush?
    {
      if trace[i].entry.serial != trace[j].entry.serial {
        var k :| i < k < j && trace[k].CodecFlush?;
        assert t[k].CodecFlush?;
      }
    }
  }

  lemma {:induction false} OrderlySend(trace: seq<Event>, e: Entry, kept: bool)
    requires Orderly(trace) && OnlySince(trace, e.serial) && SentUpTo(trace, e.serial)
    ensures var t := trace + [Sent(e, kept)]; Orderly(t) && OnlySince(t, e.serial) && SentUpTo(t, e.serial)
  {
    var t := trace + [Sent(e, kept)];
    forall i | 0 <= i < |t| && t[i].Sent? && t[i].entry.serial != e.serial
      ensures exists k :: i < k < |trace| && t[k].CodecFlush?
    {
      assert trace[i].Sent?;
      var k :| i < k < |trace| && trace[k].CodecFlush?;
      assert t[k].CodecFlush?;
    }
    forall i, j | 0 <= i < j < |t| && t[i].Sent? && t[j].Sent?
      ensures t[i].entry.serial <= t[j].entry.serial
      ensures t[i].entry.serial != t[j].entry.serial ==> exists k :: i < k < j && t[k].CodecFlush?
    {
      if j < |trace| && trace[i].entry.serial != trace[j].entry.serial {
        var k :| i < k < j && trace[k].CodecFlush?;
        assert t[k].CodecFlush?;
      }
    }
  }

  /** The same judged event by event: the highest serial sent, and that of the packets since the last
      codec flush; Mixed once something is out of order. */
  datatype Seen = Mixed | Seen(high: int, since: Option<int>)

  function Watch(trace: seq<Event>): Seen {
    if trace == [] then Seen(-1, None)
    else
      var w := Watch(trace[..|trace| - 1]);
      if w.Mixed? then Mixed
      else
        match trace[|trace| - 1]
        case CodecFlush => w.(since := None)
        case Sent(e, _) => if w.high <= e.serial && MayPrecede(w, e.serial) then Seen(e.serial, Some(e.serial)) else Mixed
  }

  predicate MayPrecede(w: Seen, x: int) {
    w.Seen? && (w.since.None? || w.since.value == x)
  }

  lemma {:induction false} WatchAppend(trace: seq<Event>, last: Event)
    ensures var w := Watch(trace);
            Watch(trace + [last])
            == if w.Mixed? then Mixed
               else match last
                    case CodecFlush => w.(since := None)
                    case Sent(e, _) =>
                      if w.high <= e.serial && MayPrecede(w, e.serial) then Seen(e.serial, Some(e.serial)) else Mixed
  {
    assert (trace + [last])[..|trace|] == trace;
  }

  /** A trace in which nothing is out of order event by event is orderly as a whole. */
  lemma {:induction false} WatchedIsOrderly(trace: seq<Event>, x: int)
    requires MayPrecede(Watch(trace), x)
    ensures Orderly(trace) && SentUpTo(trace, Watch(trace).high) && OnlySince(trace, x)
    decreases trace
  {
    if trace != [] {
      var front, e := trace[..|trace| - 1], trace[|trace| - 1];
      assert trace == front + [e];
      var w := Watch(front);
      if e.Sent? {
        WatchedIsOrderly(front, e.entry.serial);
        OrderlySend(front, e.entry, e.kept);
      } else {
        WatchedIsOrderly(front, if w.since.Some? then w.since.value else x);
        OrderlyFlush(front, w.high);
        assert trace[|front|].CodecFlush?;
      }
    }
  }

  // ---------- the invariant ----------

  /** From serial `from` on, the entries raise the serial with flush packets only. */
  ghost predicate Stepped(from: int, es: seq<Entry>)
    decreases es
  {
    es == [] || ((if es[0].pkt.flush then es[0].serial > from else es[0].serial == from) && Stepped(es[0].serial, es[1..]))
  }

  ghost function LastSerial(from: int, es: seq<Entry>): int {
    if es == [] then from else es[|es| - 1].serial
  }

  lemma {:induction false} SteppedAppend(from: int, es: seq<Entry>, e: Entry)
    requires Stepped(from, es)
    requires if e.pkt.flush then e.serial > LastSerial(from, es) else e.serial == LastSerial(from, es)
    ensures Stepped(from, es + [e])
    decreases es
  {
    if es != [] {
      SteppedAppend(es[0].serial, es[1..], e);
      assert (es + [e])[1..] == es[1..] + [e];
    } else {
      assert (es + [e])[1..] == [];
    }
  }

  lemma {:induction false} SteppedBounds(from: int, es: seq<Entry>)
    requires Stepped(from, es)
    ensures from <= LastSerial(from, es)
    decreases es
  {
    if es != [] {
      SteppedBounds(es[0].serial, es[1..]);
    }
  }

  ghost predicate QueueInv(s: System) {
    && Stepped(s.dec.serial, s.queue.entries)
    && s.dec.serial <= LastSerial(s.dec.serial, s.queue.entries) <= s.queue.serial
    && (if s.owed then s.queue.entries == [] else LastSerial(s.dec.serial, s.queue.entries) == s.queue.serial)
  }

  /** What the decoder holds or keeps pending belongs to its serial; a packet it is about to use is
      safe to send; otherwise its serial is already out of date or what was sent since the last codec
      flush carries it. */
  ghost predicate DecInv(s: System) {
    var d, w := s.dec, Watch(s.trace);
    && w.Seen? && w.high <= d.serial
    && ((d.at == Checking || d.at == Using) <==> d.hold.Some?)
    && (d.pending.Some? ==> !d.pending.value.pkt.flush && d.pending.value.serial == d.serial)
    && (d.hold.Some? ==> d.pending.None? && d.hold.value.serial == d.serial)
    && (MayPrecede(w, d.serial)
        || (d.hold.Some? && d.hold.value.pkt.flush)
        || (d.serial < s.queue.serial && d.at != Using))
  }

  lemma {:induction false} InitInv()
    ensures QueueInv(Init()) && DecInv(Init())
  {
  }

  lemma {:induction false} QueueStep(s: System, step: Step)
    requires QueueInv(s) && Enabled(s, step)
    ensures QueueInv(Next(s, step))
  {
    match step {
      case PutPacket(pkt) => AppendStep(s, pkt);
      case StartQueue(pkt) => AppendStep(s.(queue := s.queue.(abort := false)), pkt);
      case Fetch => SteppedBounds(s.queue.entries[0].serial, s.queue.entries[1..]);
      case _ =>
    }
  }

  lemma {:induction false} AppendStep(s: System, pkt: Packet)
    requires QueueInv(s) && (s.owed && !pkt.flush ==> s.queue.abort)
    ensures QueueInv(s.(queue := Put(s.queue, pkt), owed := s.owed && (s.queue.abort || !pkt.flush)))
  {
    if !s.queue.abort {
      var serial := if pkt.flush then s.queue.serial + 1 else s.queue.serial;
      SteppedAppend(s.dec.serial, s.queue.entries, Entry(pkt, serial));
    }
  }

  lemma {:induction false} DecStepPacket(s: System, step: Step)
    requires DecInv(s) && Enabled(s, step) && step.UsePacket?
    ensures DecInv(Next(s, step))
  {
    WatchAppend(s.trace, Sent(s.dec.hold.value, step.answer == TakenAndKept));
  }

  lemma {:induction false} DecStepFlush(s: System, step: Step)
    requires DecInv(s) && Enabled(s, step) && (step.UseFlush? || step.Drain?)
    ensures DecInv(Next(s, step))
  {
    WatchAppend(s.trace, CodecFlush);
  }

  lemma {:induction false} DecStep(s: System, step: Step)
    requires QueueInv(s) && DecInv(s) && Enabled(s, step)
    ensures DecInv(Next(s, step))
  {
    if step.UsePacket? {
      DecStepPacket(s, step);
    } else if step.UseFlush? || step.Drain? {
      DecStepFlush(s, step);
    } else if step.Fetch? {
      SteppedBounds(s.queue.entries[0].serial, s.queue.entries[1..]);
    }
  }

  // ---------- every run ----------

  ghost predicate Run(steps: seq<Step>, s: System)
    decreases |steps|
  {
    if steps == [] then s == Init()
    else
      var n := |steps| - 1;
      exists r :: Run(steps[..n], r) && Enabled(r, steps[n]) && s == Next(r, steps[n])
  }

  lemma {:induction false} RunInv(steps: seq<Step>, s: System)
    requires Run(steps, s)
    ensures QueueInv(s) && DecInv(s)
    decreases |steps|
  {
    if steps == [] {
      InitInv();
    } else {
      var n := |steps| - 1;
      var r :| Run(steps[..n], r) && Enabled(r, steps[n]) && s == Next(r, steps[n]);
      RunInv(steps[..n], r);
      QueueStep(r, steps[n]);
      DecStep(r, steps[n]);
    }
  }

  /** However seeks, puts, aborts and restarts interleave with the decoder, the packets it sends have
      serials that never decrease, and a codec flush lies between packets of different serials. */
  lemma {:induction false} SerialsNeverMix(steps: seq<Step>, s: System)
    requires Run(steps, s)
    ensures Orderly(s.trace)
  {
    RunInv(steps, s);
    var w := Watch(s.trace);
    WatchedIsOrderly(s.trace, if w.since.Some? then w.since.value else 0);
  }
}
