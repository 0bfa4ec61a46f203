/** output_packet: packets travel through a chain of bitstream filters, driven by one index. */
module FilterChain {
  import opened Basics

  /** A bitstream filter as a transducer: what it emits for one packet, and at the end of the stream. */
  datatype Filter<!S, !P> = Filter(step: (S, P) -> (S, seq<P>), finish: S -> (S, seq<P>))

  /** What running packets through filters gives: their new states, the packets that come out, and
      how many turns of the loop it takes. */
  datatype Flow<S, P> = Flow(states: seq<S>, outs: seq<P>, turns: nat)

  // ---------- filters one after the other ----------

  /** One filter over a whole sequence of packets. */
  function Pass<S, P>(f: Filter<S, P>, s: S, input: seq<P>): (S, seq<P>) {
    if input == [] then (s, [])
    else
      var (s1, o1) := f.step(s, input[0]);
      var (s2, o2) := Pass(f, s1, input[1..]);
      (s2, o1 + o2)
  }

  /** The composed filters: the first one sees the whole input, the next one all that comes out, and
      so on. */
  function Feed<S, P>(fs: seq<Filter<S, P>>, ss: seq<S>, input: seq<P>): (r: Flow<S, P>)
    requires |fs| == |ss|
    ensures |r.states| == |fs|
    decreases |fs|
  {
    if |fs| == 0 then Flow([], input, |input|)
    else
      var (s, o) := Pass(fs[0], ss[0], input);
      var rest := Feed(fs[1..], ss[1..], o);
      Flow([s] + rest.states, rest.outs, 2 * |input| + rest.turns)
  }

  /** The same with an end of stream behind the input: each filter is told when all of its input has
      been seen. */
  function Finish<S, P>(fs: seq<Filter<S, P>>, ss: seq<S>, input: seq<P>): (r: Flow<S, P>)
    requires |fs| == |ss|
    ensures |r.states| == |fs|
    decreases |fs|
  {
    if |fs| == 0 then Flow([], input, |input| + 1)
    else
      var (s, o) := Pass(fs[0], ss[0], input);
      var (s', o') := fs[0].finish(s);
      var rest := Finish(fs[1..], ss[1..], o + o');
      Flow([s'] + rest.states, rest.outs, 2 * |input| + 1 + rest.turns)
  }

  lemma {:induction false} PassInTwo<S, P>(f: Filter<S, P>, s: S, a: seq<P>, b: seq<P>)
    ensures var (s1, o1) := Pass(f, s, a);
            var (s2, o2) := Pass(f, s1, b);
            Pass(f, s, a + b) == (s2, o1 + o2)
    decreases |a|
  {
    if a == [] {
      assert a + b == b;
      assert [] + Pass(f, s, b).1 == Pass(f, s, b).1;
    } else {
      var (s1, o1) := f.step(s, a[0]);
      PassInTwo(f, s1, a[1..], b);
      assert (a + b)[1..] == a[1..] + b;
      var (s2, o2) := Pass(f, s1, a[1..]);
      var (s3, o3) := Pass(f, s2, b);
      assert o1 + (o2 + o3) == (o1 + o2) + o3;
    }
  }

  lemma {:induction false} FeedInTwo<S, P>(fs: seq<Filter<S, P>>, ss: seq<S>, a: seq<P>, b: seq<P>)
    requires |fs| == |ss|
    ensures var x := Feed(fs, ss, a);
            var y := Feed(fs, x.states, b);
            Feed(fs, ss, a + b) == Flow(y.states, x.outs + y.outs, x.turns + y.turns)
    decreases |fs|
  {
    if |fs| > 0 {
      PassInTwo(fs[0], ss[0], a, b);
      var (s1, o1) := Pass(fs[0], ss[0], a);
      var (s2, o2) := Pass(fs[0], s1, b);
      FeedInTwo(fs[1..], ss[1..], o1, o2);
      assert Feed(fs, ss, a).states[1..] == Feed(fs[1..], ss[1..], o1).states;
    }
  }

  /** The first filter, fed a and b and then told of the end, all at once. */
  lemma {:induction false} FirstFinishesBoth<S, P>(fs: seq<Filter<S, P>>, ss: seq<S>, a: seq<P>, b: seq<P>)
    requires |fs| == |ss| > 0
    ensures var (s1, o1) := Pass(fs[0], ss[0], a);
            var (s2, o2) := Pass(fs[0], s1, b);
            var (s3, o3) := fs[0].finish(s2);
            var rest := Finish(fs[1..], ss[1..], o1 + (o2 + o3));
            Finish(fs, ss, a + b) == Flow([s3] + rest.states, rest.outs, 2 * |a| + 2 * |b| + 1 + rest.turns)
  {
    PassInTwo(fs[0], ss[0], a, b);
    var (s1, o1) := Pass(fs[0], ss[0], a);
    var (s2, o2) := Pass(fs[0], s1, b);
    var (s3, o3) := fs[0].finish(s2);
    assert (o1 + o2) + o3 == o1 + (o2 + o3);
  }

  /** The same with the first filter fed a before. */
  lemma {:induction false} FirstFinishesAfter<S, P>(fs: seq<Filter<S, P>>, ss: seq<S>, a: seq<P>, b: seq<P>)
    requires |fs| == |ss| > 0
    ensures var (s1, o1) := Pass(fs[0], ss[0], a);
            var (s2, o2) := Pass(fs[0], s1, b);
            var (s3, o3) := fs[0].finish(s2);
            var deep := Feed(fs[1..], ss[1..], o1);
            var rest := Finish(fs[1..], deep.states, o2 + o3);
            && Feed(fs, ss, a) == Flow([s1] + deep.states, deep.outs, 2 * |a| + deep.turns)
            && Finish(fs, [s1] + deep.states, b) == Flow([s3] + rest.states, rest.outs, 2 * |b| + 1 + rest.turns)
  {
    var (s1, o1) := Pass(fs[0], ss[0], a);
    var deep := Feed(fs[1..], ss[1..], o1);
    assert ([s1] + deep.states)[1..] == deep.states;
  }

  lemma {:induction false} FinishInTwo<S, P>(fs: seq<Filter<S, P>>, ss: seq<S>, a: seq<P>, b: seq<P>)
    requires |fs| == |ss|
    ensures var x := Feed(fs, ss, a);
            var y := Finish(fs, x.states, b);
            Finish(fs, ss, a + b) == Flow(y.states, x.outs + y.outs, x.turns + y.turns)
    decreases |fs|
  {
    if |fs| > 0 {
      FirstFinishesBoth(fs, ss, a, b);
      FirstFinishesAfter(fs, ss, a, b);
      var (s1, o1) := Pass(fs[0], ss[0], a);
      var (s2, o2) := Pass(fs[0], s1, b);
      FinishInTwo(fs[1..], ss[1..], o1, o2 + fs[0].finish(s2).1);
    }
  }

  lemma {:induction false} FeedNothing<S, P>(fs: seq<Filter<S, P>>, ss: seq<S>)
    requires |fs| == |ss|
    ensures Feed(fs, ss, []) == Flow(ss, [], 0)
    decreases |fs|
  {
    if |fs| > 0 {
      FeedNothing(fs[1..], ss[1..]);
      assert [ss[0]] + ss[1..] == ss;
    }
  }

  // ---------- what is still to come while the loop runs ----------

  /** The loop stands at index idx: filter idx - 1 is to be drained next, the packets ready[k] wait in
      filter k, and the first `ended` filters have been told of the end of the stream. */
  function Rest<S, P>(fs: seq<Filter<S, P>>, idx: nat, ss: seq<S>, ready: seq<seq<P>>, ended: nat): (r: Flow<S, P>)
    requires |fs| == |ss| == |ready| && idx <= |fs|
    ensures |r.states| == |fs|
    decreases idx, fs
  {
    if idx == 0 then Flow(ss, [], 0)
    else if idx <= ended then
      var all := Finish(fs[idx..], ss[idx..], ready[idx - 1]);
      Flow(ss[..idx] + all.states, all.outs, all.turns)
    else
      var here := Feed(fs[idx..], ss[idx..], ready[idx - 1]);
      var below := Rest(fs, idx - 1, ss[..idx] + here.states, ready, ended);
      Flow(below.states, here.outs + below.outs, here.turns + 1 + below.turns)
  }

  /** Only the waiting packets below the index matter. */
  lemma {:induction false} RestIgnores<S, P>(fs: seq<Filter<S, P>>, idx: nat, ss: seq<S>, ready: seq<seq<P>>,
                                             other: seq<seq<P>>, ended: nat)
    requires |fs| == |ss| == |ready| == |other| && idx <= |fs|
    requires forall k | 0 <= k < idx :: ready[k] == other[k]
    ensures Rest(fs, idx, ss, ready, ended) == Rest(fs, idx, ss, other, ended)
    decreases idx
  {
    if idx > 0 && idx > ended {
      var here := Feed(fs[idx..], ss[idx..], ready[idx - 1]);
      RestIgnores(fs, idx - 1, ss[..idx] + here.states, ready, other, ended);
    }
  }

  /** A packet goes to the muxer. */
  lemma {:induction false} TurnMux<S, P>(fs: seq<Filter<S, P>>, ss: seq<S>, ready: seq<seq<P>>, ended: nat)
    requires |fs| == |ss| == |ready| > 0 && ready[|fs| - 1] != []
    ensures var n := |fs|;
            var after := Rest(fs, n, ss, ready[n - 1 := ready[n - 1][1..]], ended);
            Rest(fs, n, ss, ready, ended) == Flow(after.states, [ready[n - 1][0]] + after.outs, 1 + after.turns)
  {
    var n := |fs|;
    var out, fewer := ready[n - 1], ready[n - 1 := ready[n - 1][1..]];
    assert fs[n..] == [] && ss[n..] == [];
    assert [out[0]] + out[1..] == out;
    if n > ended {
      RestIgnores(fs, n - 1, ss[..n] + [], ready, fewer, ended);
      var below := Rest(fs, n - 1, ss[..n] + [], ready, ended);
      assert [out[0]] + (out[1..] + below.outs) == out + below.outs;
    }
  }

  /** The filters from idx on once a packet has gone all the way through them. */
  lemma {:induction false} Settled<S, P>(fs: seq<Filter<S, P>>, idx: nat, ss: seq<S>, p: P) returns (settled: seq<S>)
    requires |fs| == |ss| && 0 < idx < |fs|
    ensures var (s, o) := fs[idx].step(ss[idx], p);
            var deep := Feed(fs[idx + 1..], ss[idx + 1..], o);
            && |settled| == |fs| && settled[..idx] == ss[..idx]
            && ss[idx := s][idx + 1..] == ss[idx + 1..]
            && settled == ss[idx := s][..idx + 1] + deep.states
            && Feed(fs[idx..], ss[idx..], [p]) == Flow(settled[idx..], deep.outs, 2 + deep.turns)
  {
    var (s, o) := fs[idx].step(ss[idx], p);
    var deep := Feed(fs[idx + 1..], ss[idx + 1..], o);
    FeedOnePacket(fs[idx..], ss[idx..], p);
    assert fs[idx..][1..] == fs[idx + 1..] && ss[idx..][1..] == ss[idx + 1..];
    settled := ss[idx := s][..idx + 1] + deep.states;
    assert settled[idx..] == [s] + deep.states;
  }

  /** The loop after a send, one level up: the next filter's packets go first. */
  lemma {:induction false} AfterSend<S, P>(fs: seq<Filter<S, P>>, idx: nat, ss: seq<S>, ready: seq<seq<P>>, o: seq<P>,
                                           ended: nat)
    requires |fs| == |ss| == |ready| && 0 < idx < |fs| && ended <= idx
    ensures var deep := Feed(fs[idx + 1..], ss[idx + 1..], o);
            var below := Rest(fs, idx, ss[..idx + 1] + deep.states, ready, ended);
            Rest(fs, idx + 1, ss, ready[idx := o], ended)
            == Flow(below.states, deep.outs + below.outs, deep.turns + 1 + below.turns)
  {
    var deep := Feed(fs[idx + 1..], ss[idx + 1..], o);
    RestIgnores(fs, idx, ss[..idx + 1] + deep.states, ready[idx := o], ready, ended);
  }

  /** A packet goes on to the next filter. */
  lemma {:induction false} TurnSend<S, P>(fs: seq<Filter<S, P>>, idx: nat, ss: seq<S>, ready: seq<seq<P>>, ended: nat)
    requires |fs| == |ss| == |ready| && 0 < idx < |fs| && ready[idx - 1] != [] && ended <= idx
    ensures var (s, o) := fs[idx].step(ss[idx], ready[idx - 1][0]);
            var after := Rest(fs, idx + 1, ss[idx := s], ready[idx - 1 := ready[idx - 1][1..]][idx := o], ended);
            Rest(fs, idx, ss, ready, ended) == after.(turns := after.turns + 1)
  {
    var p, more := ready[idx - 1][0], ready[idx - 1][1..];
    var (s, o) := fs[idx].step(ss[idx], p);
    var settled := Settled(fs, idx, ss, p);
    AfterSend(fs, idx, ss[idx := s], ready[idx - 1 := more], o, ended);
    assert [p] + more == ready[idx - 1];
    if idx <= ended {
      FinishInTwo(fs[idx..], ss[idx..], [p], more);
    } else {
      SendThenMore(fs, idx, ss, ready, p, more, settled, ended);
    }
  }

  lemma {:induction false} SendThenMore<S, P>(fs: seq<Filter<S, P>>, idx: nat, ss: seq<S>, ready: seq<seq<P>>, p: P,
                                              more: seq<P>, settled: seq<S>, ended: nat)
    requires |fs| == |ss| == |ready| == |settled| && 0 < idx < |fs| && ready[idx - 1] == [p] + more && ended < idx
    requires settled[..idx] == ss[..idx] && Feed(fs[idx..], ss[idx..], [p]).states == settled[idx..]
    ensures var first := Feed(fs[idx..], ss[idx..], [p]);
            var after := Rest(fs, idx, settled, ready[idx - 1 := more], ended);
            Rest(fs, idx, ss, ready, ended) == Flow(after.states, first.outs + after.outs, first.turns + after.turns)
  {
    var first := Feed(fs[idx..], ss[idx..], [p]);
    var second := Feed(fs[idx..], settled[idx..], more);
    FeedInTwo(fs[idx..], ss[idx..], [p], more);
    RestIgnores(fs, idx - 1, ss[..idx] + second.states, ready, ready[idx - 1 := more], ended);
    var below := Rest(fs, idx - 1, ss[..idx] + second.states, ready, ended);
    assert first.outs + (second.outs + below.outs) == (first.outs + second.outs) + below.outs;
  }

  /** The end of the stream goes on to the next filter. */
  lemma {:induction false} TurnEnd<S, P>(fs: seq<Filter<S, P>>, idx: nat, ss: seq<S>, ready: seq<seq<P>>)
    requires |fs| == |ss| == |ready| && 0 < idx < |fs| && ready[idx - 1] == []
    ensures var (s, o) := fs[idx].finish(ss[idx]);
            var after := Rest(fs, idx + 1, ss[idx := s], ready[idx := o], idx + 1);
            Rest(fs, idx, ss, ready, idx) == after.(turns := after.turns + 1)
  {
    var (s, o) := fs[idx].finish(ss[idx]);
    assert fs[idx..][1..] == fs[idx + 1..] && ss[idx..][1..] == ss[idx + 1..];
    assert ss[idx := s][idx + 1..] == ss[idx + 1..];
    assert [] + o == o;
    assert Pass(fs[idx], ss[idx], []) == (ss[idx], []);
    var deep := Finish(fs[idx + 1..], ss[idx + 1..], o);
    assert Finish(fs[idx..], ss[idx..], []) == Flow([s] + deep.states, deep.outs, 1 + deep.turns);
    assert ss[..idx] + ([s] + deep.states) == ss[idx := s][..idx + 1] + deep.states;
  }

  /** A drained filter that can get more input: back to the one before it. */
  lemma {:induction false} TurnBack<S, P>(fs: seq<Filter<S, P>>, idx: nat, ss: seq<S>, ready: seq<seq<P>>, ended: nat)
    requires |fs| == |ss| == |ready| && ended < idx <= |fs| && ready[idx - 1] == []
    ensures var after := Rest(fs, idx - 1, ss, ready, ended);
            Rest(fs, idx, ss, ready, ended) == after.(turns := after.turns + 1)
  {
    FeedNothing(fs[idx..], ss[idx..]);
    assert ss[..idx] + ss[idx..] == ss;
    var after := Rest(fs, idx - 1, ss, ready, ended);
    assert [] + after.outs == after.outs;
  }

  lemma {:induction false} FeedOnePacket<S, P>(fs: seq<Filter<S, P>>, ss: seq<S>, p: P)
    requires |fs| == |ss| > 0
    ensures var (s, o) := fs[0].step(ss[0], p);
            var deep := Feed(fs[1..], ss[1..], o);
            Feed(fs, ss, [p]) == Flow([s] + deep.states, deep.outs, 2 + deep.turns)
  {
    var (s, o) := fs[0].step(ss[0], p);
    assert [p][1..] == [];
    assert Pass(fs[0], s, []) == (s, []);
    assert o + [] == o;
    assert Pass(fs[0], ss[0], [p]) == (s, o);
  }

  // ---------- the loop ----------

  datatype Received<P> = Got(pkt: P) | Again | End

  datatype Answer = Accepted | TryAgain | Invalid

  class OutputStream<S, P> {
    const filters: seq<Filter<S, P>>
    /** Per filter: its state, the packets it has not handed out, and whether its input has ended. */
    var states: seq<S>
    var ready: seq<seq<P>>
    var ended: seq<bool>
    /** What write_packet has been given. */
    var muxed: seq<P>

    constructor (filters: seq<Filter<S, P>>, states: seq<S>)
      requires |filters| == |states|
      ensures this.filters == filters && this.states == states && muxed == [] && Idle()
    {
      this.filters, this.states, muxed := filters, states, [];
      ready := seq(|filters|, _ => []);
      ended := seq(|filters|, _ => false);
    }

    ghost predicate Valid()
      reads this
    {
      |filters| == |states| == |ready| == |ended|
    }

    /** Between calls every filter is drained and open for input. */
    ghost predicate Idle()
      reads this
    {
      Valid() && forall k | 0 <= k < |filters| :: ready[k] == [] && !ended[k]
    }

    /** av_bsf_send_packet; None is the end of the stream, which is always accepted. A filter whose
        input has ended takes no packet, and one that still holds packets takes none for now. */
    method BsfSend(k: nat, pkt: Option<P>) returns (answer: Answer)
      requires Valid() && k < |filters|
      modifies this`states, this`ready, this`ended
      ensures Valid()
      ensures answer == if pkt.None? then Accepted
                        else if old(ended[k]) then Invalid
                        else if old(ready[k]) != [] then TryAgain
                        else Accepted
      ensures answer != Accepted || (pkt.None? && old(ended[k])) ==>
                states == old(states) && ready == old(ready) && ended == old(ended)
      ensures answer == Accepted && !old(ended[k]) ==>
                var (s, o) := if pkt.Some? then filters[k].step(old(states[k]), pkt.value) else filters[k].finish(old(states[k]));
                && states == old(states)[k := s] && ended == old(ended)[k := pkt.None?]
                && ready == old(ready)[k := if old(ready[k]) == [] then o else old(ready[k]) + o]
    {
      if pkt.Some? && ended[k] {
        return Invalid;
      }
      if pkt.Some? && ready[k] != [] {
        return TryAgain;
      }
      answer := Accepted;
      if !ended[k] {
        var (s, o) := if pkt.Some? then filters[k].step(states[k], pkt.value) else filters[k].finish(states[k]);
        states, ended := states[k := s], ended[k := pkt.None?];
        ready := ready[k := if ready[k] == [] then o else ready[k] + o];
      }
    }

    /** av_bsf_receive_packet. */
    method BsfReceive(k: nat) returns (r: Received<P>)
      requires Valid() && k < |filters|
      modifies this`ready
      ensures Valid()
      ensures if old(ready[k]) != [] then r == Got(old(ready[k])[0]) && ready == old(ready)[k := old(ready[k])[1..]]
              else r == (if ended[k] then End else Again) && ready == old(ready)
    {
      if ready[k] != [] {
        r := Got(ready[k][0]);
        ready := ready[k := ready[k][1..]];
      } else {
        r := if ended[k] then End else Again;
      }
    }

    /** Filters from idx on are drained; the first n and no others have been told of the end, and of
        those all but the last are drained. */
    ghost predicate LoopInv(idx: nat, n: nat)
      reads this
    {
      && Valid() && idx <= |filters| && n <= idx
      && (forall k | idx <= k < |filters| :: ready[k] == [])
      && (forall k | 0 <= k < |filters| :: ended[k] <==> k < n)
      && (forall k | 0 <= k < n - 1 :: ready[k] == [])
    }

    ghost function StillToCome(idx: nat, n: nat): Flow<S, P>
      reads this
      requires Valid() && idx <= |filters|
    {
      Rest(filters, idx, states, ready, n)
    }

    /** The part of a turn that hands on to filter idx what filter idx - 1, then holding held[idx - 1],
        has just given. */
    method SendOn(idx: nat, r: Received<P>, ghost n: nat, ghost held: seq<seq<P>>) returns (ghost m: nat)
      requires LoopInv(idx, n) && 0 < idx < |filters| && |held| == |filters|
      requires match r
               case Got(p) => held[idx - 1] == [p] + ready[idx - 1] && held == ready[idx - 1 := held[idx - 1]]
               case End => held == ready && ready[idx - 1] == [] && n == idx
               case Again => false
      modifies this`states, this`ready, this`ended
      ensures LoopInv(idx + 1, m) && (n > 0 ==> m > 0) && (m > 0 ==> n > 0)
      ensures var before := Rest(filters, idx, old(states), held, n);
              before == StillToCome(idx + 1, m).(turns := StillToCome(idx + 1, m).turns + 1)
    {
      ghost var ss, left := states, ready;
      var answer := BsfSend(idx, if r.End? then None else Some(r.pkt));
      assert answer == Accepted; // filter idx is drained and open: no jump on an error
      if r.End? {
        TurnEnd(filters, idx, ss, held);
        m := idx + 1;
      } else {
        assert held[idx - 1][1..] == left[idx - 1] && held[idx - 1 := left[idx - 1]] == left;
        TurnSend(filters, idx, ss, held, n);
        m := n;
      }
    }

    /** The same where filter idx - 1 is the last one: the packet goes to write_packet. */
    method MuxOn(pkt: P, ghost n: nat, ghost held: seq<seq<P>>)
      requires LoopInv(|filters|, n) && |held| == |filters| > 0
      requires held[|filters| - 1] == [pkt] + ready[|filters| - 1]
      requires held == ready[|filters| - 1 := held[|filters| - 1]]
      modifies this`muxed
      ensures LoopInv(|filters|, n)
      ensures var before, after := Rest(filters, |filters|, states, held, n), StillToCome(|filters|, n);
              && before.states == after.states && after.turns < before.turns
              && muxed + after.outs == old(muxed) + before.outs
    {
      var last := |filters| - 1;
      assert held[last][1..] == ready[last] && held[last := ready[last]] == ready;
      TurnMux(filters, states, held, n);
      muxed := muxed + [pkt];
      ghost var outs := StillToCome(|filters|, n).outs;
      assert muxed + outs == old(muxed) + ([pkt] + outs);
    }

    /** The same where filter idx - 1 has nothing to give. */
    lemma {:induction false} GoBack(idx: nat, n: nat)
      requires LoopInv(idx, n) && n < idx && ready[idx - 1] == []
      ensures LoopInv(idx - 1, n)
      ensures var before, after := StillToCome(idx, n), StillToCome(idx - 1, n);
              before == after.(turns := after.turns + 1)
    {
      TurnBack(filters, idx, states, ready, n);
    }

    /** One turn of the loop; stop stands for the jump out of it at the end of the stream. */
    method Turn(idx: nat, ghost n: nat) returns (next: nat, ghost m: nat, stop: bool)
      requires LoopInv(idx, n) && idx > 0
      modifies this`states, this`ready, this`ended, this`muxed
      ensures LoopInv(next, m) && (n > 0 <==> m > 0)
      ensures stop ==> next == m == |filters| && ready[|filters| - 1] == []
      ensures !stop ==> StillToCome(next, m).turns < old(StillToCome(idx, n)).turns
      ensures StillToCome(next, m).states == old(StillToCome(idx, n)).states
      ensures muxed + StillToCome(next, m).outs == old(muxed) + old(StillToCome(idx, n)).outs
    {
      ghost var held := ready;
      next, m, stop := idx, n, false;
      var r := BsfReceive(idx - 1);
      assert old(StillToCome(idx, n)) == Rest(filters, idx, states, held, n);
      if r.Again? {
        GoBack(idx, n);
        next := idx - 1;
      } else if idx < |filters| {
        m := SendOn(idx, r, n, held);
        next := idx + 1;
      } else if r.End? {
        stop := true;
      } else {
        MuxOn(r.pkt, n, held);
      }
    }

    /** The packets that reach the muxer are those that the composed filters give for this input,
        in order. */
    method OutputPacket(pkt: Option<P>)
      requires Idle()
      modifies this`states, this`ready, this`ended, this`muxed
      ensures Valid()
      ensures pkt.Some? ==> var f := Feed(filters, old(states), [pkt.value]);
                            Idle() && states == f.states && muxed == old(muxed) + f.outs
      ensures pkt.None? ==> var f := Finish(filters, old(states), []);
                            && states == f.states && muxed == old(muxed) + f.outs
                            && forall k | 0 <= k < |filters| :: ready[k] == [] && ended[k]
    {
      ghost var before := muxed;
      ghost var goal := if pkt.Some? then Feed(filters, states, [pkt.value]) else Finish(filters, states, []);
      if |filters| == 0 {
        if pkt.Some? {
          muxed := muxed + [pkt.value];
        }
        return;
      }
      FirstSend(filters, states, pkt, ready);
      var answer := BsfSend(0, pkt);
      assert answer == Accepted;
      ghost var n := if pkt.None? then 1 else 0;
      var idx, stop := 1, false;
      while idx > 0 && !stop
        invariant LoopInv(idx, n) && (pkt.None? <==> n > 0)
        invariant stop ==> idx == n == |filters| && ready[|filters| - 1] == []
        invariant StillToCome(idx, n).states == goal.states
        invariant muxed + StillToCome(idx, n).outs == before + goal.outs
        decreases !stop, StillToCome(idx, n).turns
      {
        idx, n, stop := Turn(idx, n);
      }
      if stop {
        AllDone(filters, states, ready);
      }
    }
  }

  /** The first send, before the loop. */
  lemma {:induction false} FirstSend<S, P>(fs: seq<Filter<S, P>>, ss: seq<S>, pkt: Option<P>, ready: seq<seq<P>>)
    requires |fs| == |ss| == |ready| > 0
    ensures var (s, o) := if pkt.Some? then fs[0].step(ss[0], pkt.value) else fs[0].finish(ss[0]);
            var goal := if pkt.Some? then Feed(fs, ss, [pkt.value]) else Finish(fs, ss, []);
            var rest := Rest(fs, 1, ss[0 := s], ready[0 := o], if pkt.None? then 1 else 0);
            rest.states == goal.states && rest.outs == goal.outs
  {
    var (s, o) := if pkt.Some? then fs[0].step(ss[0], pkt.value) else fs[0].finish(ss[0]);
    assert ss[0 := s][1..] == ss[1..] && ss[0 := s][..1] == [s];
    if pkt.Some? {
      FeedOnePacket(fs, ss, pkt.value);
      var here := Feed(fs[1..], ss[1..], o);
      assert here.outs + [] == here.outs;
    } else {
      assert Pass(fs[0], ss[0], []) == (ss[0], []);
      assert [] + o == o;
    }
  }

  lemma {:induction false} AllDone<S, P>(fs: seq<Filter<S, P>>, ss: seq<S>, ready: seq<seq<P>>)
    requires |fs| == |ss| == |ready| > 0 && ready[|fs| - 1] == []
    ensures Rest(fs, |fs|, ss, ready, |fs|).outs == [] && Rest(fs, |fs|, ss, ready, |fs|).states == ss
  {
    assert fs[|fs|..] == [] && ss[|fs|..] == [] && ss[..|fs|] + [] == ss;
  }

  // ---------- whole streams ----------

  /** Sending packets one call at a time, and the end of the stream after them. */
  function Stream<S, P>(fs: seq<Filter<S, P>>, ss: seq<S>, packets: seq<P>): seq<P>
    requires |fs| == |ss|
    decreases |packets|
  {
    if packets == [] then Finish(fs, ss, []).outs
    else
      var f := Feed(fs, ss, [packets[0]]);
      f.outs + Stream(fs, f.states, packets[1..])
  }

  /** Over a whole stream the muxer gets what the composed filters give for all its packets and its
      end, however many calls bring them. */
  lemma {:induction false} StreamIsComposition<S, P>(fs: seq<Filter<S, P>>, ss: seq<S>, packets: seq<P>)
    requires |fs| == |ss|
    ensures Stream(fs, ss, packets) == Finish(fs, ss, packets).outs
    decreases |packets|
  {
    if packets != [] {
      var p, more := packets[0], packets[1..];
      assert [p] + more == packets;
      FinishInTwo(fs, ss, [p], more);
      StreamIsComposition(fs, Feed(fs, ss, [p]).states, more);
    }
  }

  // ---------- nothing is made or lost ----------

  function Total<P>(m: P -> int, ps: seq<P>): int {
    if ps == [] then 0 else m(ps[0]) + Total(m, ps[1..])
  }

  lemma {:induction false} TotalBoth<P>(m: P -> int, a: seq<P>, b: seq<P>)
    ensures Total(m, a + b) == Total(m, a) + Total(m, b)
    decreases a
  {
    if a == [] {
      assert a + b == b;
    } else {
      assert (a + b)[1..] == a[1..] + b;
      TotalBoth(m, a[1..], b);
    }
  }

  /** A filter that neither makes nor loses anything: m measures packets, held what a state holds back,
      and at the end all of that comes out. */
  ghost predicate Conserves<S(!new), P(!new)>(f: Filter<S, P>, m: P -> int, held: S -> int) {
    && (forall s: S, p: P :: var (t, o) := f.step(s, p); held(t) + Total(m, o) == held(s) + m(p))
    && (forall s: S :: var (t, o) := f.finish(s); Total(m, o) == held(s))
  }

  lemma {:induction false} PassConserves<S(!new), P(!new)>(f: Filter<S, P>, s: S, input: seq<P>, m: P -> int, held: S -> int)
    requires Conserves(f, m, held)
    ensures var (t, o) := Pass(f, s, input); held(t) + Total(m, o) == held(s) + Total(m, input)
    decreases input
  {
    if input != [] {
      var (s1, o1) := f.step(s, input[0]);
      PassConserves(f, s1, input[1..], m, held);
      TotalBoth(m, o1, Pass(f, s1, input[1..]).1);
    }
  }

  /** What the filters hold together. */
  function HeldIn<S>(held: seq<S -> int>, ss: seq<S>): int
    requires |held| == |ss|
  {
    if ss == [] then 0 else held[0](ss[0]) + HeldIn(held[1..], ss[1..])
  }

  /** Through a chain of such filters a whole stream comes out as much as went in, with what the filters
      held at its start. */
  lemma {:induction false} ChainConserves<S(!new), P(!new)>(fs: seq<Filter<S, P>>, ss: seq<S>, input: seq<P>, m: P -> int,
                                                            held: seq<S -> int>)
    requires |fs| == |ss| == |held| && forall k | 0 <= k < |fs| :: Conserves(fs[k], m, held[k])
    ensures Total(m, Finish(fs, ss, input).outs) == Total(m, input) + HeldIn(held, ss)
    decreases fs
  {
    if fs != [] {
      assert Conserves(fs[0], m, held[0]);
      PassConserves(fs[0], ss[0], input, m, held[0]);
      var (s, o) := Pass(fs[0], ss[0], input);
      var (s', o') := fs[0].finish(s);
      TotalBoth(m, o, o');
      assert forall k | 0 <= k < |fs[1..]| :: fs[1..][k] == fs[k + 1] && held[1..][k] == held[k + 1];
      ChainConserves(fs[1..], ss[1..], o + o', m, held[1..]);
    }
  }

  /** A chain of filters that hand on each packet as it is gives the muxer the packets as they are. */
  lemma {:induction false} PassThrough<S(!new), P(!new)>(fs: seq<Filter<S, P>>, ss: seq<S>, input: seq<P>)
    requires |fs| == |ss|
    requires forall k | 0 <= k < |fs| ::
               (forall s: S, p: P :: fs[k].step(s, p) == (s, [p])) && (forall s: S :: fs[k].finish(s) == (s, []))
    ensures Finish(fs, ss, input).outs == input
    decreases fs
  {
    if fs != [] {
      PassIdentity(fs[0], ss[0], input);
      assert input + [] == input;
      assert forall k | 0 <= k < |fs[1..]| :: fs[1..][k] == fs[k + 1];
      PassThrough(fs[1..], ss[1..], input);
    }
  }

  lemma {:induction false} PassIdentity<S(!new), P(!new)>(f: Filter<S, P>, s: S, input: seq<P>)
    requires forall t: S, p: P :: f.step(t, p) == (t, [p])
    ensures Pass(f, s, input) == (s, input)
    decreases input
  {
    if input != [] {
      PassIdentity(f, s, input[1..]);
      assert [input[0]] + input[1..] == input;
    }
  }
}
