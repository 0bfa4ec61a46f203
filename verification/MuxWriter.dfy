/** write_packet: counting, waiting for the header, and repairing timestamps before the muxer. */
module MuxWriter {
  import opened Basics

  /** AV_NOPTS_VALUE, the mark of a missing timestamp. */
  const NOPTS := -0x8000_0000_0000_0000

  type Time = t: int | NOPTS <= t witness 0

  datatype Packet = Packet(pts: Time, dts: Time, content: int)

  datatype Kind = Video | Audio | Subtitle | Data

  /** The options and flags that stay fixed for an output stream; queue sizes count packets. */
  datatype Config = Config(kind: Kind, encoding: bool, maxFrames: nat, maxQueue: nat, dropTimes: bool,
                           noTimestamps: bool, nonStrict: bool, vp9Copy: bool, exitOnError: bool)

  // ---------- timestamps ----------

  function Min3(a: int, b: int, c: int): int {
    if a <= b && a <= c then a else if b <= c then b else c
  }

  function Max3(a: int, b: int, c: int): int {
    if a >= b && a >= c then a else if b >= c then b else c
  }

  /** The guess that replaces a dts above its pts. */
  function Guess(pts: Time, dts: Time, last: Time): int {
    pts + dts + last + 1 - Min3(pts, dts, last + 1) - Max3(pts, dts, last + 1)
  }

  /** One of three values, with one of the others on either side. */
  ghost predicate IsMedian(m: int, a: int, b: int, c: int) {
    || (m == a && (b <= a <= c || c <= a <= b))
    || (m == b && (a <= b <= c || c <= b <= a))
    || (m == c && (a <= c <= b || b <= c <= a))
  }

  lemma {:induction false} GuessIsMedian(pts: Time, dts: Time, last: Time)
    ensures IsMedian(Guess(pts, dts, last), pts, dts, last + 1)
  {
  }

  function Guessed(p: Packet, last: Time): (r: Packet)
    ensures r.content == p.content && (r.dts == NOPTS <==> p.dts == NOPTS) && (r.pts == NOPTS <==> p.pts == NOPTS)
    ensures p.dts != NOPTS && p.pts != NOPTS ==> r.dts <= r.pts
  {
    if p.dts != NOPTS && p.pts != NOPTS && p.dts > p.pts then
      GuessIsMedian(p.pts, p.dts, last);
      p.(pts := Guess(p.pts, p.dts, last), dts := Guess(p.pts, p.dts, last))
    else p
  }

  /** Streams whose dts are kept in order. */
  predicate Repairs(c: Config) {
    !c.noTimestamps && c.kind != Data && !c.vp9Copy
  }

  function Floor(c: Config, last: Time): Time {
    last + if c.nonStrict then 0 else 1
  }

  /** The packet as the muxer gets it, `last` being the dts before; None when the program exits. */
  function Repair(c: Config, p: Packet, last: Time): Option<Packet> {
    if c.noTimestamps then Some(p)
    else
      var g := Guessed(p, last);
      if Repairs(c) && g.dts != NOPTS && last != NOPTS && g.dts < Floor(c, last) then
        if c.exitOnError then None
        else
          var max := Floor(c, last);
          Some(g.(pts := if g.pts >= g.dts then (if g.pts > max then g.pts else max) else g.pts, dts := max))
      else Some(g)
  }

  ghost predicate InOrder(c: Config, a: Time, b: Time) {
    if c.nonStrict then a <= b else a < b
  }

  lemma {:induction false} RepairOrders(c: Config, p: Packet, last: Time)
    requires Repair(c, p, last).Some?
    ensures var r := Repair(c, p, last).value;
            && r.content == p.content
            && (r.dts == NOPTS <==> p.dts == NOPTS) && (r.pts == NOPTS <==> p.pts == NOPTS)
            && (!c.noTimestamps && p.pts != NOPTS && p.dts != NOPTS ==> r.dts <= r.pts)
            && (Repairs(c) && r.dts != NOPTS && last != NOPTS ==> InOrder(c, last, r.dts))
  {
  }

  /** The dts after the median step is one that a stream of this kind must not have after last. */
  predicate Backward(c: Config, dts: Time, last: Time) {
    Repairs(c) && dts != NOPTS && last != NOPTS && !(if c.nonStrict then last <= dts else last < dts)
  }

  /** The packet that leaves: m is the median where dts was above pts, and dts otherwise; a dts that
      would go back is raised to the smallest one allowed, and takes a pts along that is not missing.
      The program exits instead exactly where it has been told to. */
  lemma {:induction false} RepairIs(c: Config, p: Packet, last: Time, m: int)
    requires !c.noTimestamps
    requires if p.dts != NOPTS && p.pts != NOPTS && p.dts > p.pts then IsMedian(m, p.pts, p.dts, last + 1) else m == p.dts
    ensures m >= NOPTS
    ensures Repair(c, p, last).None? <==> c.exitOnError && Backward(c, m, last)
    ensures Repair(c, p, last).Some? ==>
              var r := Repair(c, p, last).value;
              && r.content == p.content
              && r.dts == (if !Backward(c, m, last) then m else if c.nonStrict then last else last + 1)
              && r.pts == (if p.pts == NOPTS then NOPTS
                           else if p.dts != NOPTS && p.dts > p.pts then r.dts
                           else if r.dts > p.pts then r.dts else p.pts)
  {
  }

  /** A format without timestamps gets the packets as they are. */
  lemma {:induction false} NoTimestampsNoRepair(c: Config, p: Packet, last: Time)
    requires c.noTimestamps
    ensures Repair(c, p, last) == Some(p)
  {
  }

  // ---------- the stream as a value ----------

  /** frames: packets counted; queue: packets waiting for the header, in a fifo with room for
      capacity; last: the dts given to the muxer last; shift: the change of time base. */
  datatype Mux = Mux(header: bool, frames: nat, queue: seq<Packet>, capacity: nat, last: Time, out: seq<Packet>,
                     shift: Time -> Time, exited: bool)

  const FIRST_CAPACITY := 8

  function Init(shift: Time -> Time): Mux {
    Mux(false, 0, [], FIRST_CAPACITY, NOPTS, [], shift, false)
  }

  predicate Counted(c: Config) {
    !(c.kind == Video && c.encoding)
  }

  /** av_packet_rescale_ts keeps missing timestamps missing. */
  function Rescaled(p: Packet, shift: Time -> Time): Packet {
    p.(pts := if p.pts == NOPTS then NOPTS else shift(p.pts), dts := if p.dts == NOPTS then NOPTS else shift(p.dts))
  }

  function Prepared(c: Config, p: Packet, shift: Time -> Time): Packet {
    Rescaled(if c.dropTimes then p.(pts := NOPTS, dts := NOPTS) else p, shift)
  }

  /** With the header written, a packet goes to the muxer. */
  function Deliver(c: Config, m: Mux, p: Packet): Mux {
    var r := Repair(c, Prepared(c, p, m.shift), m.last);
    if r.None? then m.(exited := true) else m.(out := m.out + [r.value], last := r.value.dts)
  }

  /** Without it, the packet waits; the fifo doubles up to the limit. */
  function Wait(c: Config, m: Mux, p: Packet): Mux {
    if |m.queue| < m.capacity then m.(queue := m.queue + [p])
    else
      var size := if 2 * |m.queue| < c.maxQueue then 2 * |m.queue| else c.maxQueue;
      if size <= |m.queue| then m.(exited := true)
      else m.(queue := m.queue + [p], capacity := size)
  }

  function Write(c: Config, m: Mux, p: Packet, unqueue: bool): Mux {
    if Counted(c) && !unqueue && m.frames >= c.maxFrames then m
    else
      var n := if Counted(c) && !unqueue then m.(frames := m.frames + 1) else m;
      if n.header then Deliver(c, n, p) else Wait(c, n, p)
  }

  /** Emptying the fifo once the header is there. */
  function Drain(c: Config, m: Mux): Mux
    decreases |m.queue|
  {
    if m.queue == [] || m.exited then m else Drain(c, Deliver(c, m.(queue := m.queue[1..]), m.queue[0]))
  }

  /** Each turn is a call of write_packet that does not count the packet again. */
  lemma {:induction false} DrainWrites(c: Config, m: Mux)
    requires m.header && m.queue != []
    ensures Deliver(c, m.(queue := m.queue[1..]), m.queue[0]) == Write(c, m.(queue := m.queue[1..]), m.queue[0], true)
  {
  }

  /** No change of time base. */
  function SameBase(): Time -> Time {
    (t: Time) => t
  }

  /** The stream's part of check_init_output_file. */
  function WriteHeader(c: Config, m: Mux): Mux {
    var n := if m.queue == [] then m.(shift := SameBase()) else m;
    Drain(c, n.(header := true))
  }

  // ---------- every run ----------

  datatype Op = Arrive(pkt: Packet) | Header

  function After(c: Config, shift: Time -> Time, ops: seq<Op>): Mux {
    if ops == [] then Init(shift)
    else
      var m, op := After(c, shift, ops[..|ops| - 1]), ops[|ops| - 1];
      if m.exited then m
      else if op.Arrive? then Write(c, m, op.pkt, false)
      else if m.header then m
      else WriteHeader(c, m)
  }

  function Arrivals(ops: seq<Op>): seq<Packet> {
    if ops == [] then []
    else
      var op := ops[|ops| - 1];
      Arrivals(ops[..|ops| - 1]) + if op.Arrive? then [op.pkt] else []
  }

  function Contents(ps: seq<Packet>): (cs: seq<int>)
    ensures |cs| == |ps| && forall i | 0 <= i < |ps| :: cs[i] == ps[i].content
  {
    seq(|ps|, i requires 0 <= i < |ps| => ps[i].content)
  }

  /** The packets that are let through. */
  function Admitted(c: Config, ps: seq<Packet>): seq<Packet> {
    if Counted(c) && |ps| > c.maxFrames then ps[..c.maxFrames] else ps
  }

  function Max(a: nat, b: nat): nat {
    if a > b then a else b
  }

  /** Neighbouring packets of the muxer with valid dts are in order. */
  ghost predicate Orderly(c: Config, out: seq<Packet>) {
    Repairs(c) ==>
      forall i | 0 < i < |out| && out[i - 1].dts != NOPTS && out[i].dts != NOPTS :: InOrder(c, out[i - 1].dts, out[i].dts)
  }

  /** Unless the format has no timestamps, pts is at least dts when both are there. */
  ghost predicate TimesAgree(c: Config, p: Packet) {
    !c.noTimestamps && p.pts != NOPTS && p.dts != NOPTS ==> p.dts <= p.pts
  }

  ghost predicate OutInv(c: Config, m: Mux) {
    && Orderly(c, m.out)
    && m.last == LastDts(m.out)
    && (forall i | 0 <= i < |m.out| :: TimesAgree(c, m.out[i]))
    && |m.queue| <= m.capacity <= Max(FIRST_CAPACITY, c.maxQueue)
  }

  lemma {:induction false} DeliverKeeps(c: Config, m: Mux, p: Packet)
    requires OutInv(c, m)
    ensures OutInv(c, Deliver(c, m, p))
    ensures !Deliver(c, m, p).exited ==> Contents(Deliver(c, m, p).out) == Contents(m.out) + [p.content]
  {
    var q := Prepared(c, p, m.shift);
    if Repair(c, q, m.last).Some? {
      RepairOrders(c, q, m.last);
      assert Contents(Deliver(c, m, p).out) == Contents(m.out) + [p.content];
    }
  }

  lemma {:induction false} DrainKeeps(c: Config, m: Mux)
    requires OutInv(c, m)
    ensures var d := Drain(c, m);
            && OutInv(c, d) && d.header == m.header && d.frames == m.frames
            && (!d.exited ==> !m.exited && d.queue == [] && Contents(d.out) == Contents(m.out) + Contents(m.queue))
    decreases |m.queue|
  {
    if m.queue != [] && !m.exited {
      var first := m.queue[0];
      var n := Deliver(c, m.(queue := m.queue[1..]), first);
      DeliverKeeps(c, m.(queue := m.queue[1..]), first);
      DrainKeeps(c, n);
      HeadAndTail(Contents(m.out), m.queue);
    } else {
      assert Contents(m.out) + [] == Contents(m.out);
    }
  }

  lemma {:induction false} HeadAndTail(cs: seq<int>, ps: seq<Packet>)
    requires ps != []
    ensures cs + Contents(ps) == (cs + [ps[0].content]) + Contents(ps[1..])
  {
    assert Contents(ps) == [ps[0].content] + Contents(ps[1..]);
  }

  /** What holds after any run that has not exited: the muxer has got, and the fifo holds, exactly
      the packets let through, in order of arrival; the fifo stays within its limit; once there is a
      header, nothing waits. */
  ghost predicate RunInv(c: Config, m: Mux, arrived: seq<Packet>) {
    && OutInv(c, m)
    && (m.header ==> m.exited || m.queue == [])
    && (!m.exited ==>
          && Contents(m.out) + Contents(m.queue) == Contents(Admitted(c, arrived))
          && (Counted(c) ==> m.frames == |Admitted(c, arrived)|))
  }

  /** A packet over the limit is dropped. */
  lemma {:induction false} DropKeeps(c: Config, m: Mux, arrived: seq<Packet>, p: Packet)
    requires RunInv(c, m, arrived) && !m.exited && Counted(c) && m.frames >= c.maxFrames
    ensures RunInv(c, m, arrived + [p])
  {
    assert Admitted(c, arrived + [p]) == Admitted(c, arrived);
  }

  lemma {:induction false} AdmitNext(c: Config, arrived: seq<Packet>, p: Packet)
    requires Counted(c) ==> |Admitted(c, arrived)| < c.maxFrames
    ensures Admitted(c, arrived + [p]) == Admitted(c, arrived) + [p]
    ensures Contents(Admitted(c, arrived + [p])) == Contents(Admitted(c, arrived)) + [p.content]
  {
    assert Admitted(c, arrived + [p]) == Admitted(c, arrived) + [p];
  }

  lemma {:induction false} DeliverArrived(c: Config, m: Mux, n: Mux, arrived: seq<Packet>, p: Packet)
    requires RunInv(c, m, arrived) && !m.exited && m.header && (Counted(c) ==> m.frames < c.maxFrames)
    requires n == if Counted(c) then m.(frames := m.frames + 1) else m
    ensures RunInv(c, Deliver(c, n, p), arrived + [p])
  {
    AdmitNext(c, arrived, p);
    DeliverKeeps(c, n, p);
    var d := Deliver(c, n, p);
    assert Contents(m.out) + Contents([]) == Contents(m.out) && Contents(d.out) + Contents([]) == Contents(d.out);
  }

  lemma {:induction false} WaitArrived(c: Config, m: Mux, n: Mux, arrived: seq<Packet>, p: Packet)
    requires RunInv(c, m, arrived) && !m.exited && !m.header && (Counted(c) ==> m.frames < c.maxFrames)
    requires n == if Counted(c) then m.(frames := m.frames + 1) else m
    ensures RunInv(c, Wait(c, n, p), arrived + [p])
  {
    AdmitNext(c, arrived, p);
    if !Wait(c, n, p).exited {
      assert Contents(m.queue + [p]) == Contents(m.queue) + [p.content];
      assert Contents(m.out) + (Contents(m.queue) + [p.content]) == (Contents(m.out) + Contents(m.queue)) + [p.content];
    }
  }

  lemma {:induction false} ArriveKeeps(c: Config, m: Mux, arrived: seq<Packet>, p: Packet)
    requires RunInv(c, m, arrived) && !m.exited
    ensures RunInv(c, Write(c, m, p, false), arrived + [p])
  {
    var n := if Counted(c) then m.(frames := m.frames + 1) else m;
    if Counted(c) && m.frames >= c.maxFrames {
      DropKeeps(c, m, arrived, p);
    } else if m.header {
      DeliverArrived(c, m, n, arrived, p);
    } else {
      WaitArrived(c, m, n, arrived, p);
    }
  }

  lemma {:induction false} HeaderKeeps(c: Config, m: Mux, arrived: seq<Packet>)
    requires RunInv(c, m, arrived) && !m.exited && !m.header
    ensures RunInv(c, WriteHeader(c, m), arrived) && WriteHeader(c, m).header
  {
    var n := (if m.queue == [] then m.(shift := SameBase()) else m).(header := true);
    DrainKeeps(c, n);
    var d := Drain(c, n);
    assert Contents(d.out) + [] == Contents(d.out);
  }

  lemma {:induction false} AlwaysRunInv(c: Config, shift: Time -> Time, ops: seq<Op>)
    ensures RunInv(c, After(c, shift, ops), Arrivals(ops))
  {
    if ops == [] {
      assert Contents([]) + Contents([]) == Contents(Admitted(c, []));
    } else {
      var n := |ops| - 1;
      AlwaysRunInv(c, shift, ops[..n]);
      var m := After(c, shift, ops[..n]);
      if !m.exited {
        if ops[n].Arrive? {
          ArriveKeeps(c, m, Arrivals(ops[..n]), ops[n].pkt);
        } else {
          assert Arrivals(ops) == Arrivals(ops[..n]);
          if !m.header {
            HeaderKeeps(c, m, Arrivals(ops[..n]));
          }
        }
      }
    }
  }

  /** Once the header is written, the muxer has exactly the first maxFrames packets of a counted
      stream, or all packets of another, in order of arrival, wherever the header came in the run. */
  lemma {:induction false} MuxerGetsAdmitted(c: Config, shift: Time -> Time, ops: seq<Op>)
    requires After(c, shift, ops).header && !After(c, shift, ops).exited
    ensures Contents(After(c, shift, ops).out) == Contents(Admitted(c, Arrivals(ops)))
  {
    AlwaysRunInv(c, shift, ops);
    var m := After(c, shift, ops);
    assert Contents(m.out) + Contents([]) == Contents(m.out);
  }

  lemma {:induction false} WaitingIsBounded(c: Config, shift: Time -> Time, ops: seq<Op>)
    ensures |After(c, shift, ops).queue| <= Max(8, c.maxQueue)
  {
    AlwaysRunInv(c, shift, ops);
  }

  /** In every run, the dts of any two packets of the muxer are in order as long as no packet from
      the first to the second lacks its dts. */
  lemma {:induction false} DtsInOrder(c: Config, shift: Time -> Time, ops: seq<Op>, i: nat, j: nat)
    requires Repairs(c) && i < j < |After(c, shift, ops).out|
    requires forall k | i <= k <= j :: After(c, shift, ops).out[k].dts != NOPTS
    ensures InOrder(c, After(c, shift, ops).out[i].dts, After(c, shift, ops).out[j].dts)
    decreases j - i
  {
    AlwaysRunInv(c, shift, ops);
    if i + 1 < j {
      DtsInOrder(c, shift, ops, i, j - 1);
    }
  }

  /** Every packet of the muxer has its pts at or after its dts. */
  lemma {:induction false} PtsNotBeforeDts(c: Config, shift: Time -> Time, ops: seq<Op>, i: nat)
    requires i < |After(c, shift, ops).out|
    ensures TimesAgree(c, After(c, shift, ops).out[i])
  {
    AlwaysRunInv(c, shift, ops);
  }

  /** All dts of a run of the repair. */
  function RepairAll(c: Config, ps: seq<Packet>): (out: Option<seq<Packet>>)
    ensures out.Some? ==> |out.value| == |ps|
  {
    if ps == [] then Some([])
    else
      var before := RepairAll(c, ps[..|ps| - 1]);
      if before.None? then None
      else
        var r := Repair(c, ps[|ps| - 1], LastDts(before.value));
        if r.None? then None else Some(before.value + [r.value])
  }

  ghost predicate AllValid(ps: seq<Packet>) {
    forall i | 0 <= i < |ps| :: ps[i].dts != NOPTS
  }

  ghost predicate AllInOrder(c: Config, out: seq<Packet>) {
    forall i | 0 < i < |out| :: InOrder(c, out[i - 1].dts, out[i].dts)
  }

  function LastDts(out: seq<Packet>): Time {
    if out == [] then NOPTS else out[|out| - 1].dts
  }

  lemma {:induction false} RepairAllNext(c: Config, ps: seq<Packet>, p: Packet)
    requires RepairAll(c, ps) == Some(ps) && Repair(c, p, LastDts(ps)) == Some(p)
    ensures RepairAll(c, ps + [p]) == Some(ps + [p])
  {
    assert (ps + [p])[..|ps|] == ps;
  }

  lemma {:induction false} NeighboursInOrder(c: Config, ps: seq<Packet>, k: nat)
    requires Repairs(c) && RepairAll(c, ps).Some? && 0 < k < |ps|
    requires ps[k - 1].dts != NOPTS && ps[k].dts != NOPTS
    ensures var out := RepairAll(c, ps).value; InOrder(c, out[k - 1].dts, out[k].dts)
  {
    var n := |ps| - 1;
    if k < n {
      NeighboursInOrder(c, ps[..n], k);
    } else {
      StaysValid(c, ps[..n], k - 1);
      RepairOrders(c, ps[n], LastDts(RepairAll(c, ps[..n]).value));
    }
  }

  /** Valid dts stay valid, and missing ones missing. */
  lemma {:induction false} StaysValid(c: Config, ps: seq<Packet>, k: nat)
    requires RepairAll(c, ps).Some? && k < |ps|
    ensures RepairAll(c, ps).value[k].dts == NOPTS <==> ps[k].dts == NOPTS
  {
    var n := |ps| - 1;
    if k < n {
      StaysValid(c, ps[..n], k);
    } else {
      RepairOrders(c, ps[n], LastDts(RepairAll(c, ps[..n]).value));
    }
  }

  lemma {:induction false} RepairAllOrders(c: Config, ps: seq<Packet>)
    requires Repairs(c) && AllValid(ps) && RepairAll(c, ps).Some?
    ensures AllInOrder(c, RepairAll(c, ps).value)
  {
    forall k | 0 < k < |ps|
      ensures InOrder(c, RepairAll(c, ps).value[k - 1].dts, RepairAll(c, ps).value[k].dts)
    {
      NeighboursInOrder(c, ps, k);
    }
  }

  /** Whatever valid dts come in, they leave in order: exactly for the streams whose dts are
      repaired. */
  lemma {:induction false} OrderIffRepairs(c: Config)
    ensures (forall ps | AllValid(ps) && RepairAll(c, ps).Some? :: AllInOrder(c, RepairAll(c, ps).value)) <==> Repairs(c)
  {
    if Repairs(c) {
      forall ps | AllValid(ps) && RepairAll(c, ps).Some?
        ensures AllInOrder(c, RepairAll(c, ps).value)
      {
        RepairAllOrders(c, ps);
      }
    } else {
      var a, b := Packet(5, 5, 0), Packet(3, 3, 1);
      RepairAllNext(c, [], a);
      RepairAllNext(c, [] + [a], b);
      var ps := [] + [a] + [b];
      assert AllValid(ps) && ps[0] == a && ps[1] == b && !InOrder(c, ps[1 - 1].dts, ps[1].dts);
    }
  }

  // ---------- packets without dts ----------

  /** Packets with a dts exactly where the mask says. */
  ghost predicate Masked(ps: seq<Packet>, valid: seq<bool>) {
    |ps| == |valid| && forall k | 0 <= k < |ps| :: ps[k].dts != NOPTS <==> valid[k]
  }

  /** Packets whose dts are in order wherever two follow each other go through unchanged. */
  lemma {:induction false} GoThrough(c: Config, ps: seq<Packet>)
    requires forall k | 0 <= k < |ps| :: ps[k].pts == NOPTS || ps[k].dts == NOPTS || ps[k].dts <= ps[k].pts
    requires forall k | 0 < k < |ps| :: ps[k - 1].dts == NOPTS || ps[k].dts == NOPTS || ps[k - 1].dts < ps[k].dts
    ensures RepairAll(c, ps) == Some(ps)
  {
    if ps != [] {
      var n := |ps| - 1;
      GoThrough(c, ps[..n]);
      assert Repair(c, ps[n], LastDts(ps[..n])) == Some(ps[n]);
      assert ps == ps[..n] + [ps[n]];
    }
  }

  /** Large dts before place k, small ones after it. */
  function Falling(valid: seq<bool>, k: nat): (ps: seq<Packet>)
    ensures Masked(ps, valid)
  {
    seq(|valid|, m requires 0 <= m < |valid| =>
      var time: Time := if !valid[m] then NOPTS else if m < k then |valid| + m else m;
      Packet(time, time, m))
  }

  lemma {:induction false} InOrderUpTo(c: Config, ps: seq<Packet>, i: nat, j: nat)
    requires Repairs(c) && RepairAll(c, ps).Some? && i < j < |ps|
    requires forall k | i <= k <= j :: ps[k].dts != NOPTS
    ensures var out := RepairAll(c, ps).value; InOrder(c, out[i].dts, out[j].dts)
    decreases j
  {
    NeighboursInOrder(c, ps, j);
    if i < j - 1 {
      InOrderUpTo(c, ps, i, j - 1);
    }
  }

  /** Which gaps lose the order: the packets at places i and j leave in order whatever their times
      are, exactly when every packet between them has a dts. */
  lemma {:induction false} OrderIffNoGap(c: Config, valid: seq<bool>, i: nat, j: nat)
    requires Repairs(c) && i < j < |valid| && valid[i] && valid[j]
    ensures (forall ps | Masked(ps, valid) && RepairAll(c, ps).Some? ::
               InOrder(c, RepairAll(c, ps).value[i].dts, RepairAll(c, ps).value[j].dts))
            <==> forall k | i < k < j :: valid[k]
  {
    if k :| i < k < j && !valid[k] {
      var ps := Falling(valid, k);
      GoThrough(c, ps);
      assert Masked(ps, valid) && !InOrder(c, ps[i].dts, ps[j].dts);
    } else {
      forall ps | Masked(ps, valid) && RepairAll(c, ps).Some?
        ensures InOrder(c, RepairAll(c, ps).value[i].dts, RepairAll(c, ps).value[j].dts)
      {
        InOrderUpTo(c, ps, i, j);
      }
    }
  }

  /** The smallest case: a packet without dts, and the dts after it smaller than the one before. */
  lemma {:induction false} MissingDtsResets(c: Config) returns (ps: seq<Packet>)
    requires Repairs(c)
    ensures |ps| == 3 && ps[0].dts != NOPTS && ps[1].dts == NOPTS && ps[2].dts != NOPTS
    ensures RepairAll(c, ps) == Some(ps) && ps[2].dts < ps[0].dts
  {
    ps := Falling([true, false, true], 1);
    GoThrough(c, ps);
  }

  // ---------- the fields ----------

  class OutputStream {
    const config: Config
    var headerWritten: bool
    var frameNumber: nat
    var muxingQueue: seq<Packet>
    var capacity: nat
    var lastMuxDts: Time
    var muxed: seq<Packet>
    var shift: Time -> Time
    var exited: bool

    constructor (config: Config, shift: Time -> Time)
      ensures this.config == config && State() == Init(shift)
    {
      this.config, this.shift := config, shift;
      headerWritten, frameNumber, muxingQueue, capacity := false, 0, [], FIRST_CAPACITY;
      lastMuxDts, muxed, exited := NOPTS, [], false;
    }

    function State(): Mux
      reads this
    {
      Mux(headerWritten, frameNumber, muxingQueue, capacity, lastMuxDts, muxed, shift, exited)
    }

    ghost predicate Valid()
      reads this
    {
      |muxingQueue| <= capacity
    }

    method WritePacket(packet: Packet, unqueue: bool)
      requires Valid() && !exited
      modifies this`headerWritten, this`frameNumber, this`muxingQueue, this`capacity, this`lastMuxDts, this`muxed, this`exited
      ensures Valid() && State() == Write(config, old(State()), packet, unqueue)
    {
      if !(config.kind == Video && config.encoding) && !unqueue {
        if frameNumber >= config.maxFrames {
          return;
        }
        frameNumber := frameNumber + 1;
      }
      if !headerWritten {
        QueuePacket(packet);
      } else {
        MuxPacket(packet);
      }
    }

    /** The part of write_packet once there is a header. */
    method MuxPacket(packet: Packet)
      modifies this`lastMuxDts, this`muxed, this`exited
      ensures State() == Deliver(config, old(State()), packet)
    {
      var pts, dts := packet.pts, packet.dts;
      if config.dropTimes {
        pts, dts := NOPTS, NOPTS;
      }
      if pts != NOPTS {
        pts := shift(pts);
      }
      if dts != NOPTS {
        dts := shift(dts);
      }
      var ok;
      ok, pts, dts := RepairTimes(pts, dts, packet.content);
      if !ok {
        exited := true;
        return;
      }
      lastMuxDts := dts;
      muxed := muxed + [Packet(pts, dts, packet.content)];
    }

    /** The stream's part of check_init_output_file, once the header has been written. */
    method InitOutputFile()
      requires Valid() && !headerWritten && !exited
      modifies this
      ensures Valid() && State() == WriteHeader(config, old(State()))
    {
      headerWritten := true;
      if |muxingQueue| == 0 {
        shift := SameBase();
      }
      ghost var goal := Drain(config, State());
      while |muxingQueue| > 0 && !exited
        invariant Valid() && headerWritten && Drain(config, State()) == goal
        decreases |muxingQueue|
      {
        var packet := muxingQueue[0];
        DrainWrites(config, State());
        muxingQueue := muxingQueue[1..];
        WritePacket(packet, true);
      }
    }

    method QueuePacket(packet: Packet)
      requires Valid()
      modifies this`muxingQueue, this`capacity, this`exited
      ensures Valid() && State() == Wait(config, old(State()), packet)
    {
      if |muxingQueue| == capacity {
        var newSize := if 2 * |muxingQueue| < config.maxQueue then 2 * |muxingQueue| else config.maxQueue;
        if newSize <= |muxingQueue| {
          exited := true;
          return;
        }
        capacity := newSize;
      }
      muxingQueue := muxingQueue + [packet];
    }

    /** The timestamp part of write_packet; ok is false where the program exits. */
    method RepairTimes(pts0: Time, dts0: Time, content: int) returns (ok: bool, pts: Time, dts: Time)
      ensures ok <==> Repair(config, Packet(pts0, dts0, content), lastMuxDts).Some?
      ensures ok ==> Repair(config, Packet(pts0, dts0, content), lastMuxDts) == Some(Packet(pts, dts, content))
    {
      ok, pts, dts := true, pts0, dts0;
      if config.noTimestamps {
        return;
      }
      if dts != NOPTS && pts != NOPTS && dts > pts {
        GuessIsMedian(pts, dts, lastMuxDts);
        pts := Guess(pts, dts, lastMuxDts);
        dts := pts;
      }
      if (config.kind == Audio || config.kind == Video || config.kind == Subtitle) && dts != NOPTS
         && !config.vp9Copy && lastMuxDts != NOPTS {
        var max: Time := lastMuxDts + if config.nonStrict then 0 else 1;
        if dts < max {
          if config.exitOnError {
            ok := false;
            return;
          }
          if pts >= dts {
            pts := if pts > max then pts else max;
          }
          dts := max;
        }
      }
    }
  }
}
