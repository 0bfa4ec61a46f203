/** What a whole run of write_packet does: when it exits, and exactly what the muxer gets. */
module MuxRuns {
  import opened Basics
  import opened MuxWriter

  /** The place of the header in a run; |ops| when it is never written. */
  function HeaderAt(ops: seq<Op>): (k: nat)
    ensures k <= |ops|
  {
    if ops == [] then 0
    else
      var n := |ops| - 1;
      var k := HeaderAt(ops[..n]);
      if k < n || ops[n].Header? then k else |ops|
  }

  function Let(c: Config, ops: seq<Op>): seq<Packet> {
    Admitted(c, Arrivals(ops))
  }

  /** The packets let through that have to wait for the header. */
  function Early(c: Config, ops: seq<Op>): seq<Packet> {
    Let(c, ops[..HeaderAt(ops)])
  }

  function Limit(c: Config): nat {
    Max(8, c.maxQueue)
  }

  function Shifted(t: Time, shift: Time -> Time): Time {
    if t == NOPTS then NOPTS else shift(t)
  }

  /** The time base changes only for a stream with packets waiting when the header is written. */
  function Base(c: Config, shift: Time -> Time, ops: seq<Op>): Time -> Time {
    if Early(c, ops) == [] then SameBase() else shift
  }

  function Sent1(c: Config, p: Packet, shift: Time -> Time): Packet {
    if c.dropTimes then Packet(NOPTS, NOPTS, p.content) else Packet(Shifted(p.pts, shift), Shifted(p.dts, shift), p.content)
  }

  /** The packets let through, with the times that the repair starts from. */
  function Sent(c: Config, shift: Time -> Time, ps: seq<Packet>): (qs: seq<Packet>)
    ensures |qs| == |ps| && forall k | 0 <= k < |ps| :: qs[k] == Sent1(c, ps[k], shift)
  {
    seq(|ps|, k requires 0 <= k < |ps| => Sent1(c, ps[k], shift))
  }

  // ---------- one step ----------

  lemma {:induction false} PreparedIsSent(c: Config, p: Packet, shift: Time -> Time)
    ensures Prepared(c, p, shift) == Sent1(c, p, shift)
  {
  }

  /** The fifo overflows exactly when it holds as many packets as it may. */
  lemma {:induction false} WaitExitsIff(c: Config, m: Mux, p: Packet)
    requires !m.exited && 8 <= m.capacity <= Limit(c) && |m.queue| <= m.capacity
    ensures Wait(c, m, p).exited <==> |m.queue| == Limit(c)
    ensures !Wait(c, m, p).exited ==>
              && Wait(c, m, p).queue == m.queue + [p] && Wait(c, m, p) == m.(queue := m.queue + [p], capacity := Wait(c, m, p).capacity)
              && 8 <= Wait(c, m, p).capacity <= Limit(c) && |m.queue| + 1 <= Wait(c, m, p).capacity
  {
  }

  lemma {:induction false} RepairAllNone(c: Config, ps: seq<Packet>, p: Packet)
    ensures RepairAll(c, ps + [p])
            == if RepairAll(c, ps).None? then None
               else var r := Repair(c, p, LastDts(RepairAll(c, ps).value));
                    if r.None? then None else Some(RepairAll(c, ps).value + [r.value])
  {
    assert (ps + [p])[..|ps|] == ps;
  }

  /** m has given the muxer what the repair makes of done, or exited over it. */
  ghost predicate Gave(c: Config, m: Mux, done: seq<Packet>) {
    && (m.exited <==> RepairAll(c, done).None?)
    && (!m.exited ==> m.out == RepairAll(c, done).value && m.last == LastDts(m.out))
  }

  lemma {:induction false} DeliverGives(c: Config, m: Mux, done: seq<Packet>, p: Packet)
    requires Gave(c, m, done) && !m.exited
    ensures Gave(c, Deliver(c, m, p), done + [Sent1(c, p, m.shift)])
    ensures var d := Deliver(c, m, p);
            d.header == m.header && d.queue == m.queue && d.frames == m.frames && d.shift == m.shift
  {
    PreparedIsSent(c, p, m.shift);
    RepairAllNone(c, done, Sent1(c, p, m.shift));
  }

  lemma {:induction false} RepairAllStaysNone(c: Config, ps: seq<Packet>, qs: seq<Packet>)
    requires RepairAll(c, ps).None?
    ensures RepairAll(c, ps + qs).None?
    decreases qs
  {
    if qs == [] {
      assert ps + qs == ps;
    } else {
      var n := |qs| - 1;
      RepairAllStaysNone(c, ps, qs[..n]);
      RepairAllNone(c, ps + qs[..n], qs[n]);
      assert ps + qs == (ps + qs[..n]) + [qs[n]];
    }
  }

  lemma {:induction false} SentFirst(c: Config, shift: Time -> Time, ps: seq<Packet>, done: seq<Packet>)
    requires ps != []
    ensures done + Sent(c, shift, ps) == (done + [Sent1(c, ps[0], shift)]) + Sent(c, shift, ps[1..])
  {
    var s, t := Sent(c, shift, ps), Sent(c, shift, ps[1..]);
    forall k | 0 <= k < |s|
      ensures s[k] == ([s[0]] + t)[k]
    {
      if k > 0 {
        assert ps[1..][k - 1] == ps[k];
      }
    }
    assert s == [s[0]] + t;
  }

  lemma {:induction false} DrainGives(c: Config, m: Mux, done: seq<Packet>)
    requires Gave(c, m, done) && !m.exited
    ensures var d := Drain(c, m);
            && Gave(c, d, done + Sent(c, m.shift, m.queue)) && (!d.exited ==> d.queue == [])
            && d.header == m.header && d.frames == m.frames && d.shift == m.shift
    decreases |m.queue|
  {
    if m.queue == [] {
      assert done + Sent(c, m.shift, m.queue) == done;
    } else {
      var n := m.(queue := m.queue[1..]);
      var p := Sent1(c, m.queue[0], m.shift);
      var d := Deliver(c, n, m.queue[0]);
      DeliverGives(c, n, done, m.queue[0]);
      SentFirst(c, m.shift, m.queue, done);
      if d.exited {
        RepairAllStaysNone(c, done + [p], Sent(c, m.shift, m.queue[1..]));
      } else {
        DrainGives(c, d, done + [p]);
      }
    }
  }

  // ---------- whole runs ----------

  /** What the state after a run is, told from the run alone. */
  ghost predicate RunIs(c: Config, shift: Time -> Time, ops: seq<Op>, m: Mux) {
    var full := |Early(c, ops)| > Limit(c);
    if HeaderAt(ops) == |ops| then
      && (m.exited <==> full)
      && (!m.exited ==> && !m.header && m.queue == Let(c, ops) && m.out == [] && m.last == NOPTS && m.shift == shift
                        && 8 <= m.capacity <= Limit(c) && |m.queue| <= m.capacity
                        && (Counted(c) ==> m.frames == |Let(c, ops)|))
    else
      && (m.exited <==> full || RepairAll(c, Sent(c, Base(c, shift, ops), Let(c, ops))).None?)
      && (!m.exited ==> && m.header && m.queue == [] && m.shift == Base(c, shift, ops)
                        && Gave(c, m, Sent(c, m.shift, Let(c, ops)))
                        && (Counted(c) ==> m.frames == |Let(c, ops)|))
  }

  /** One more packet is let through, or it is dropped. */
  lemma {:induction false} LetNext(c: Config, ops: seq<Op>)
    requires ops != []
    ensures var before, op := Let(c, ops[..|ops| - 1]), ops[|ops| - 1];
            Let(c, ops) == if op.Arrive? && (Counted(c) ==> |before| < c.maxFrames) then before + [op.pkt] else before
  {
    var n := |ops| - 1;
    if ops[n].Arrive? {
      if Counted(c) ==> |Let(c, ops[..n])| < c.maxFrames {
        AdmitNext(c, Arrivals(ops[..n]), ops[n].pkt);
      } else {
        assert Let(c, ops) == Let(c, ops[..n]);
      }
    } else {
      assert Arrivals(ops) == Arrivals(ops[..n]);
    }
  }

  lemma {:induction false} EarlyStays(c: Config, ops: seq<Op>)
    requires ops != []
    ensures HeaderAt(ops) < |ops| - 1 ==> HeaderAt(ops) == HeaderAt(ops[..|ops| - 1])
    ensures HeaderAt(ops) < |ops| ==> Early(c, ops) == Early(c, ops[..|ops| - 1])
    ensures HeaderAt(ops[..|ops| - 1]) == |ops| - 1 ==> Early(c, ops[..|ops| - 1]) == Let(c, ops[..|ops| - 1])
    ensures HeaderAt(ops) == |ops| ==> Early(c, ops) == Let(c, ops) && HeaderAt(ops[..|ops| - 1]) == |ops| - 1
  {
    var n := |ops| - 1;
    assert ops[..|ops|] == ops && ops[..n][..n] == ops[..n];
    if HeaderAt(ops) < |ops| {
      assert ops[..n][..HeaderAt(ops[..n])] == ops[..HeaderAt(ops)];
    }
  }

  lemma {:induction false} SentNext(c: Config, shift: Time -> Time, ps: seq<Packet>, p: Packet)
    ensures Sent(c, shift, ps + [p]) == Sent(c, shift, ps) + [Sent1(c, p, shift)]
  {
  }

  lemma {:induction false} ArriveIs(c: Config, shift: Time -> Time, ops: seq<Op>, m: Mux)
    requires ops != [] && ops[|ops| - 1].Arrive? && !m.exited && RunIs(c, shift, ops[..|ops| - 1], m)
    ensures RunIs(c, shift, ops, Write(c, m, ops[|ops| - 1].pkt, false))
  {
    var n, p := |ops| - 1, ops[|ops| - 1].pkt;
    LetNext(c, ops);
    EarlyStays(c, ops);
    var before := Let(c, ops[..n]);
    var k := if Counted(c) then m.(frames := m.frames + 1) else m;
    if Counted(c) && m.frames >= c.maxFrames {
    } else if m.header {
      DeliverGives(c, k, Sent(c, m.shift, before), p);
      SentNext(c, m.shift, before, p);
    } else {
      WaitExitsIff(c, k, p);
    }
  }

  lemma {:induction false} HeaderIs(c: Config, shift: Time -> Time, ops: seq<Op>, m: Mux)
    requires ops != [] && ops[|ops| - 1].Header? && !m.exited && RunIs(c, shift, ops[..|ops| - 1], m)
    ensures RunIs(c, shift, ops, if m.header then m else WriteHeader(c, m))
  {
    LetNext(c, ops);
    EarlyStays(c, ops);
    if !m.header {
      HeaderGives(c, m);
    }
  }

  lemma {:induction false} HeaderGives(c: Config, m: Mux)
    requires !m.exited && m.out == [] && m.last == NOPTS
    ensures var d, base := WriteHeader(c, m), if m.queue == [] then SameBase() else m.shift;
            && Gave(c, d, Sent(c, base, m.queue)) && (!d.exited ==> d.queue == [])
            && d.header && d.frames == m.frames && d.shift == base
  {
    var n := (if m.queue == [] then m.(shift := SameBase()) else m).(header := true);
    assert RepairAll(c, []) == Some([]);
    DrainGives(c, n, []);
    assert [] + Sent(c, n.shift, m.queue) == Sent(c, n.shift, m.queue);
  }

  lemma {:induction false} ExitedIs(c: Config, shift: Time -> Time, ops: seq<Op>, m: Mux)
    requires ops != [] && m.exited && RunIs(c, shift, ops[..|ops| - 1], m)
    ensures RunIs(c, shift, ops, m)
  {
    LetNext(c, ops);
    EarlyStays(c, ops);
    var n := |ops| - 1;
    if HeaderAt(ops[..n]) < n && Let(c, ops) != Let(c, ops[..n]) {
      var base := Base(c, shift, ops);
      SentNext(c, base, Let(c, ops[..n]), ops[n].pkt);
      if RepairAll(c, Sent(c, base, Let(c, ops[..n]))).None? {
        RepairAllStaysNone(c, Sent(c, base, Let(c, ops[..n])), [Sent1(c, ops[n].pkt, base)]);
      }
    }
  }

  lemma {:induction false} EveryRunIs(c: Config, shift: Time -> Time, ops: seq<Op>)
    ensures RunIs(c, shift, ops, After(c, shift, ops))
  {
    if ops != [] {
      var n := |ops| - 1;
      EveryRunIs(c, shift, ops[..n]);
      var m := After(c, shift, ops[..n]);
      if m.exited {
        ExitedIs(c, shift, ops, m);
      } else if ops[n].Arrive? {
        ArriveIs(c, shift, ops, m);
      } else {
        HeaderIs(c, shift, ops, m);
      }
    }
  }

  // ---------- results ----------

  lemma {:induction false} NeverNone(c: Config, ps: seq<Packet>)
    requires !c.exitOnError
    ensures RepairAll(c, ps).Some?
  {
    if ps != [] {
      NeverNone(c, ps[..|ps| - 1]);
    }
  }

  /** A run exits exactly when more packets have to wait for the header than the fifo may hold, or when
      the header is there and the repair gives up on the packets sent. */
  lemma {:induction false} ExitIff(c: Config, shift: Time -> Time, ops: seq<Op>)
    ensures After(c, shift, ops).exited
            <==> || |Early(c, ops)| > Limit(c)
                 || (HeaderAt(ops) < |ops| && RepairAll(c, Sent(c, Base(c, shift, ops), Let(c, ops))).None?)
    ensures !c.exitOnError ==> (After(c, shift, ops).exited <==> |Early(c, ops)| > Limit(c))
  {
    EveryRunIs(c, shift, ops);
    if !c.exitOnError {
      NeverNone(c, Sent(c, Base(c, shift, ops), Let(c, ops)));
    }
  }

  /** Until it exits, a run with a header has given the muxer exactly the repaired packets, and nothing
      before the header. */
  lemma {:induction false} OutIs(c: Config, shift: Time -> Time, ops: seq<Op>)
    requires !After(c, shift, ops).exited
    ensures HeaderAt(ops) == |ops| ==> After(c, shift, ops).out == []
    ensures HeaderAt(ops) < |ops| ==> RepairAll(c, Sent(c, Base(c, shift, ops), Let(c, ops))) == Some(After(c, shift, ops).out)
  {
    EveryRunIs(c, shift, ops);
  }

  /** Packets whose times are in order already leave with exactly their own times, in the new time base. */
  lemma {:induction false} InOrderUntouched(c: Config, shift: Time -> Time, ops: seq<Op>)
    requires HeaderAt(ops) < |ops| && |Early(c, ops)| <= Limit(c)
    requires var s := Sent(c, Base(c, shift, ops), Let(c, ops));
             && (forall k | 0 <= k < |s| :: s[k].pts == NOPTS || s[k].dts == NOPTS || s[k].dts <= s[k].pts)
             && (forall k | 0 < k < |s| :: s[k - 1].dts == NOPTS || s[k].dts == NOPTS || s[k - 1].dts < s[k].dts)
    ensures !After(c, shift, ops).exited
    ensures After(c, shift, ops).out == Sent(c, Base(c, shift, ops), Let(c, ops))
  {
    EveryRunIs(c, shift, ops);
    GoThrough(c, Sent(c, Base(c, shift, ops), Let(c, ops)));
  }
}
