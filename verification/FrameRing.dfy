/** The decoded-frame ring shared by a decoder thread (writer) and a display thread (reader). Each
    step below is one access to a slot, one unlocked index update or one section under the mutex. */
module FrameRing {
  import opened Basics
  import opened Slices
  import opened Wrapping

  const FRAME_QUEUE_SIZE := 16

  datatype Frame = Frame(picture: int, serial: int)

  /** Where the writer is: outside, with a slot to fill, or between its index and size updates. */
  datatype Writer = WIdle | WFilling | WIndexed

  /** Where the reader is: outside, about to move its index behind a slot it has emptied, or between
      its index and size updates. */
  datatype Reader = RIdle | REmptied | RIndexed

  datatype Ring = Ring(slots: seq<Option<Frame>>, rindex: nat, windex: nat, size: int, maxSize: nat,
                       keepLast: bool, shown: bool, writer: Writer, reader: Reader)

  datatype Step = Acquire | Fill(frame: Frame) | PushIndex | PushSize | Show | Unref | NextIndex | NextSize

  predicate Shaped(q: Ring) {
    0 < q.maxSize <= |q.slots| && q.rindex < q.maxSize && q.windex < q.maxSize
  }

  function ShownCount(q: Ring): nat {
    if q.shown then 1 else 0
  }

  /** frame_queue_nb_remaining */
  function Remaining(q: Ring): int {
    q.size - ShownCount(q)
  }

  predicate WriterBlocked(q: Ring) {
    q.writer == WIdle && q.size >= q.maxSize
  }

  predicate ReaderBlocked(q: Ring) {
    q.reader == RIdle && Remaining(q) <= 0
  }

  predicate Enabled(q: Ring, s: Step)
    requires Shaped(q)
  {
    match s
    case Acquire => q.writer == WIdle && q.size < q.maxSize
    case Fill(_) => q.writer == WFilling
    case PushIndex => q.writer == WFilling && q.slots[q.windex].Some?
    case PushSize => q.writer == WIndexed
    case Show => q.reader == RIdle && Remaining(q) > 0 && q.keepLast && !q.shown
    case Unref => q.reader == RIdle && Remaining(q) > 0 && !(q.keepLast && !q.shown)
    case NextIndex => q.reader == REmptied
    case NextSize => q.reader == RIndexed
  }

  function Apply(q: Ring, s: Step): (r: Ring)
    requires Shaped(q)
    ensures Shaped(r) && |r.slots| == |q.slots| && r.maxSize == q.maxSize && r.keepLast == q.keepLast
  {
    match s
    case Acquire => q.(writer := WFilling)
    case Fill(f) => q.(slots := q.slots[q.windex := Some(f)])
    case PushIndex => q.(windex := if q.windex + 1 == q.maxSize then 0 else q.windex + 1, writer := WIndexed)
    case PushSize => q.(size := q.size + 1, writer := WIdle)
    case Show => q.(shown := true)
    case Unref => q.(slots := q.slots[q.rindex := None], reader := REmptied)
    case NextIndex => q.(rindex := if q.rindex + 1 == q.maxSize then 0 else q.rindex + 1, reader := RIndexed)
    case NextSize => q.(size := q.size - 1, reader := RIdle)
  }

  // ---------- the history of a run ----------

  /** A ring with all frames handed over so far, and how many of them the reader has given up. */
  datatype Traced = Traced(ring: Ring, written: seq<Frame>, gone: nat)

  function Init(slots: nat, maxSize: nat, keepLast: bool): Traced {
    Traced(Ring(seq(slots, _ => None), 0, 0, 0, maxSize, keepLast, false, WIdle, RIdle), [], 0)
  }

  function Next(t: Traced, s: Step): Traced
    requires Shaped(t.ring) && Enabled(t.ring, s)
  {
    Traced(Apply(t.ring, s),
           if s.PushIndex? then t.written + [t.ring.slots[t.ring.windex].value] else t.written,
           if s.Unref? then t.gone + 1 else t.gone)
  }

  /** Frames whose size update has been made. */
  function Pushed(t: Traced): int {
    if t.ring.writer == WIndexed then |t.written| - 1 else |t.written|
  }

  /** The size and the two threads' positions agree with the history. */
  ghost predicate Counts(t: Traced) {
    var q := t.ring;
    && Shaped(q) && (q.shown ==> q.keepLast)
    && q.size == Pushed(t) - (if q.reader == RIdle then t.gone else t.gone - 1)
    && t.gone + ShownCount(q) <= Pushed(t) && 0 <= q.size <= q.maxSize
    && (q.reader != RIdle ==> t.gone > 0)
    && (q.writer != WIdle ==> q.size < q.maxSize)
  }

  /** In addition, the indices stand where the history says, and the slots hold the frames handed
      over and not given up. */
  ghost predicate Inv(t: Traced) {
    var q := t.ring;
    && Counts(t)
    && q.windex == Wrap(|t.written|, q.maxSize)
    && q.rindex == Wrap(if q.reader == REmptied then t.gone - 1 else t.gone, q.maxSize)
    && forall k | t.gone <= k < |t.written| :: q.slots[Wrap(k, q.maxSize)] == Some(t.written[k])
  }

  lemma {:induction false} InitInv(slots: nat, maxSize: nat, keepLast: bool)
    requires 0 < maxSize <= slots
    ensures Inv(Init(slots, maxSize, keepLast))
  {
  }

  /** Frames handed over and not given up never share a slot, and the slot open to the writer is
      none of theirs. */
  lemma {:induction false} SlotsApart(t: Traced, k: nat)
    requires Inv(t) && t.gone <= k < |t.written|
    ensures t.ring.writer == WFilling ==> Wrap(k, t.ring.maxSize) != t.ring.windex
    ensures k > t.gone || t.ring.reader == REmptied ==> Wrap(k, t.ring.maxSize) != t.ring.rindex
  {
    var m := t.ring.maxSize;
    if t.ring.writer == WFilling {
      WrapApart(k, |t.written|, m);
    }
    if t.ring.reader == REmptied {
      WrapApart(t.gone - 1, k, m);
    } else if k > t.gone {
      WrapApart(t.gone, k, m);
    }
  }

  lemma {:induction false} NextCounts(t: Traced, s: Step)
    requires Counts(t) && Enabled(t.ring, s)
    ensures Counts(Next(t, s))
  {
  }

  lemma {:induction false} NextIndices(t: Traced, s: Step)
    requires Inv(t) && Enabled(t.ring, s)
    ensures var u := Next(t, s);
            && u.ring.windex == Wrap(|u.written|, u.ring.maxSize)
            && u.ring.rindex == Wrap(if u.ring.reader == REmptied then u.gone - 1 else u.gone, u.ring.maxSize)
  {
    WrapNext(|t.written|, t.ring.maxSize);
    if s.NextIndex? {
      WrapNext(t.gone - 1, t.ring.maxSize);
    }
  }

  lemma {:induction false} NextSlot(t: Traced, s: Step, k: nat)
    requires Inv(t) && Enabled(t.ring, s) && Next(t, s).gone <= k < |Next(t, s).written|
    ensures Next(t, s).ring.slots[Wrap(k, t.ring.maxSize)] == Some(Next(t, s).written[k])
  {
    if k < |t.written| {
      SlotsApart(t, k);
    }
  }

  lemma {:induction false} NextInv(t: Traced, s: Step)
    requires Inv(t) && Enabled(t.ring, s)
    ensures Inv(Next(t, s))
  {
    NextCounts(t, s);
    NextIndices(t, s);
    forall k | Next(t, s).gone <= k < |Next(t, s).written|
      ensures Next(t, s).ring.slots[Wrap(k, t.ring.maxSize)] == Some(Next(t, s).written[k])
    {
      NextSlot(t, s, k);
    }
  }

  // ---------- the bounded FIFO that the ring is ----------

  /** A frame kept on display, and the frames waiting behind it. */
  datatype Fifo = Fifo(kept: Option<Frame>, waiting: seq<Frame>)

  function Load(f: Fifo): nat {
    |f.waiting| + if f.kept.Some? then 1 else 0
  }

  ghost function Abstract(t: Traced): Fifo
    requires Counts(t)
  {
    Fifo(if t.ring.shown then Some(t.written[t.gone]) else None, t.written[t.gone + ShownCount(t.ring)..Pushed(t)])
  }

  /** What a step does to the FIFO: handing over a frame appends it, advancing takes the first one
      and keeps it when the ring is one that keeps its last frame; all else changes nothing. */
  ghost predicate FifoStep(f: Fifo, g: Fifo, keepLast: bool, capacity: nat, s: Step, last: Frame) {
    match s
    case PushSize => g == f.(waiting := f.waiting + [last]) && Load(f) < capacity
    case Show | Unref =>
      f.waiting != [] && g == Fifo(if keepLast then Some(f.waiting[0]) else None, f.waiting[1..])
    case _ => g == f
  }

  lemma {:induction false} RefinesQuiet(t: Traced, s: Step)
    requires Counts(t) && Enabled(t.ring, s) && (s.Acquire? || s.Fill? || s.PushIndex? || s.NextIndex? || s.NextSize?)
    requires Counts(Next(t, s))
    ensures Abstract(Next(t, s)) == Abstract(t)
  {
    assert Abstract(Next(t, s)).waiting == Abstract(t).waiting;
  }

  lemma {:induction false} RefinesPush(t: Traced)
    requires Counts(t) && Enabled(t.ring, PushSize) && Counts(Next(t, PushSize))
    ensures t.written != [] && Load(Abstract(t)) < t.ring.maxSize
    ensures Abstract(Next(t, PushSize)) == Abstract(t).(waiting := Abstract(t).waiting + [t.written[|t.written| - 1]])
  {
    SliceNext(t.written, t.gone + ShownCount(t.ring), |t.written| - 1);
  }

  lemma {:induction false} RefinesTake(t: Traced, s: Step)
    requires Counts(t) && Enabled(t.ring, s) && (s.Show? || s.Unref?) && Counts(Next(t, s))
    ensures Abstract(t).waiting != []
    ensures Abstract(Next(t, s))
            == Fifo(if t.ring.keepLast then Some(Abstract(t).waiting[0]) else None, Abstract(t).waiting[1..])
  {
    SliceTail(t.written, t.gone + ShownCount(t.ring), Pushed(t));
    assert Pushed(Next(t, s)) == Pushed(t);
  }

  /** Every step of the ring is a step of the FIFO, or none. */
  lemma {:induction false} Refines(t: Traced, s: Step)
    requires Inv(t) && Enabled(t.ring, s)
    ensures Inv(Next(t, s))
    ensures s.PushSize? ==> t.written != []
    ensures FifoStep(Abstract(t), Abstract(Next(t, s)), t.ring.keepLast, t.ring.maxSize, s,
                     if t.written == [] then Frame(0, 0) else t.written[|t.written| - 1])
  {
    NextInv(t, s);
    match s {
      case PushSize => RefinesPush(t);
      case Show => RefinesTake(t, s);
      case Unref => RefinesTake(t, s);
      case _ => RefinesQuiet(t, s);
    }
  }

  /** The slot d places after the oldest live frame holds the frame d places after it. */
  lemma {:induction false} PeekAt(t: Traced, d: nat)
    requires Inv(t) && t.ring.reader != REmptied && t.gone + d < |t.written|
    ensures t.ring.slots[Wrap(t.ring.rindex + d, t.ring.maxSize)] == Some(t.written[t.gone + d])
  {
    WrapAhead(t.gone, d, t.ring.maxSize);
  }

  lemma {:induction false} WaitingAt(t: Traced, d: nat)
    requires Inv(t) && t.ring.reader != REmptied && d < |Abstract(t).waiting|
    ensures t.ring.slots[Wrap(t.ring.rindex + (ShownCount(t.ring) + d), t.ring.maxSize)] == Some(Abstract(t).waiting[d])
  {
    PeekAt(t, ShownCount(t.ring) + d);
  }

  /** peek, peek_next and peek_last show the first two waiting frames and the kept one. The reader
      never calls them while it moves on. */
  lemma {:induction false} PeeksAreFifo(t: Traced)
    requires Inv(t) && t.ring.reader != REmptied
    ensures var q, f := t.ring, Abstract(t);
            && (|f.waiting| > 0 ==> q.slots[Wrap(q.rindex + ShownCount(q), q.maxSize)] == Some(f.waiting[0]))
            && (|f.waiting| > 1 ==> q.slots[Wrap(q.rindex + ShownCount(q) + 1, q.maxSize)] == Some(f.waiting[1]))
            && (f.kept.Some? ==> q.slots[Wrap(q.rindex, q.maxSize)] == f.kept)
            && (q.reader == RIdle ==> |f.waiting| == Remaining(q))
  {
    var f := Abstract(t);
    if |f.waiting| > 0 {
      WaitingAt(t, 0);
    }
    if |f.waiting| > 1 {
      WaitingAt(t, 1);
    }
    if f.kept.Some? {
      PeekAt(t, 0);
    }
  }

  // ---------- every run ----------

  ghost predicate Run(t0: Traced, steps: seq<Step>, t: Traced)
    decreases |steps|
  {
    if steps == [] then t == t0
    else
      var n := |steps| - 1;
      exists u :: Run(t0, steps[..n], u) && Shaped(u.ring) && Enabled(u.ring, steps[n]) && t == Next(u, steps[n])
  }

  ghost predicate Reachable(t: Traced, slots: nat, maxSize: nat, keepLast: bool) {
    exists steps :: Run(Init(slots, maxSize, keepLast), steps, t)
  }

  lemma {:induction false} RunInv(t0: Traced, steps: seq<Step>, t: Traced)
    requires Inv(t0) && Run(t0, steps, t)
    ensures Inv(t) && t.ring.maxSize == t0.ring.maxSize && t.ring.keepLast == t0.ring.keepLast
    decreases |steps|
  {
    if steps != [] {
      var n := |steps| - 1;
      var u :| Run(t0, steps[..n], u) && Shaped(u.ring) && Enabled(u.ring, steps[n]) && t == Next(u, steps[n]);
      RunInv(t0, steps[..n], u);
      NextInv(u, steps[n]);
    }
  }

  /** The frames taken by the reader are, in order, exactly the first frames handed over. */
  lemma {:induction false} ReachableInv(t: Traced, slots: nat, maxSize: nat, keepLast: bool)
    requires 0 < maxSize <= slots && Reachable(t, slots, maxSize, keepLast)
    ensures Inv(t) && t.ring.maxSize == maxSize && t.ring.keepLast == keepLast
  {
    var steps :| Run(Init(slots, maxSize, keepLast), steps, t);
    InitInv(slots, maxSize, keepLast);
    RunInv(Init(slots, maxSize, keepLast), steps, t);
  }

  lemma {:induction false} OneStep(t: Traced, s: Step, slots: nat, maxSize: nat, keepLast: bool)
    requires Reachable(t, slots, maxSize, keepLast) && Shaped(t.ring) && Enabled(t.ring, s)
    ensures Reachable(Next(t, s), slots, maxSize, keepLast)
  {
    var t0 := Init(slots, maxSize, keepLast);
    var steps :| Run(t0, steps, t);
    assert (steps + [s])[..|steps|] == steps && (steps + [s])[|steps|] == s;
    assert Run(t0, steps + [s], Next(t, s));
  }

  /** A ring of one place that keeps its last frame gets stuck once that frame is shown. */
  lemma {:induction false} OnePlaceGetsStuck(slots: nat, frame: Frame) returns (t: Traced)
    requires slots > 0
    ensures Reachable(t, slots, 1, true) && WriterBlocked(t.ring) && ReaderBlocked(t.ring)
  {
    t := Init(slots, 1, true);
    assert Run(t, [], t);
    OneStep(t, Acquire, slots, 1, true);
    t := Next(t, Acquire);
    OneStep(t, Fill(frame), slots, 1, true);
    t := Next(t, Fill(frame));
    OneStep(t, PushIndex, slots, 1, true);
    t := Next(t, PushIndex);
    OneStep(t, PushSize, slots, 1, true);
    t := Next(t, PushSize);
    OneStep(t, Show, slots, 1, true);
    t := Next(t, Show);
  }

  /** Reader and writer are never both blocked if and only if the ring has two places or does not
      keep its last frame. */
  lemma {:induction false} NeverBothBlockedIff(slots: nat, maxSize: nat, keepLast: bool)
    requires 0 < maxSize <= slots
    ensures (forall t | Reachable(t, slots, maxSize, keepLast) :: !(WriterBlocked(t.ring) && ReaderBlocked(t.ring)))
            <==> maxSize >= 2 || !keepLast
  {
    if maxSize >= 2 || !keepLast {
      forall t | Reachable(t, slots, maxSize, keepLast)
        ensures !(WriterBlocked(t.ring) && ReaderBlocked(t.ring))
      {
        ReachableInv(t, slots, maxSize, keepLast);
      }
    } else {
      var t := OnePlaceGetsStuck(slots, Frame(0, 0));
    }
  }

  // ---------- the frames are those put in ----------

  /** The frame last written into the slot that the writer holds. */
  function Latest(steps: seq<Step>): Option<Frame> {
    if steps == [] then None
    else
      match steps[|steps| - 1]
      case Acquire => None
      case Fill(frame) => Some(frame)
      case _ => Latest(steps[..|steps| - 1])
  }

  /** The frames handed over in a run: at each index update of the writer, the one last written. */
  function HandedOver(steps: seq<Step>): seq<Frame> {
    if steps == [] then []
    else
      var front := steps[..|steps| - 1];
      HandedOver(front) + if steps[|steps| - 1].PushIndex? && Latest(front).Some? then [Latest(front).value] else []
  }

  /** Slots without a live frame are empty, but for the one being written. */
  ghost predicate OthersEmpty(t: Traced)
    requires Shaped(t.ring)
  {
    forall k | |t.written| <= k < t.gone + t.ring.maxSize && !(t.ring.writer == WFilling && k == |t.written|) ::
      t.ring.slots[Wrap(k, t.ring.maxSize)] == None
  }

  lemma {:induction false} NextOthersEmpty(t: Traced, s: Step)
    requires Inv(t) && Enabled(t.ring, s) && OthersEmpty(t)
    ensures OthersEmpty(Next(t, s))
  {
    var u, m := Next(t, s), t.ring.maxSize;
    forall k | |u.written| <= k < u.gone + m && !(u.ring.writer == WFilling && k == |u.written|)
      ensures u.ring.slots[Wrap(k, m)] == None
    {
      EmptyAt(t, s, k);
    }
  }

  lemma {:induction false} EmptyAt(t: Traced, s: Step, k: nat)
    requires Inv(t) && Enabled(t.ring, s) && OthersEmpty(t)
    requires |Next(t, s).written| <= k < Next(t, s).gone + t.ring.maxSize
    requires !(Next(t, s).ring.writer == WFilling && k == |Next(t, s).written|)
    ensures Next(t, s).ring.slots[Wrap(k, t.ring.maxSize)] == None
  {
    var m := t.ring.maxSize;
    match s {
      case Fill(_) => WrapApart(|t.written|, k, m);
      case Unref =>
        if k == t.gone + m {
          WrapAround(t.gone, m);
        }
      case _ =>
    }
  }

  /** The frames handed over are those written, in order and unchanged; the slot being written holds
      the frame last written, or none. */
  ghost predicate FillInv(steps: seq<Step>, t: Traced)
    requires Shaped(t.ring)
  {
    && t.written == HandedOver(steps)
    && (t.ring.writer == WFilling ==> t.ring.slots[t.ring.windex] == Latest(steps))
  }

  lemma {:induction false} NextFill(steps: seq<Step>, u: Traced)
    requires steps != [] && Inv(u) && OthersEmpty(u) && FillInv(steps[..|steps| - 1], u)
    requires Enabled(u.ring, steps[|steps| - 1])
    ensures FillInv(steps, Next(u, steps[|steps| - 1]))
  {
    match steps[|steps| - 1] {
      case Acquire => assert u.ring.slots[Wrap(|u.written|, u.ring.maxSize)] == None;
      case Unref =>
        if u.ring.writer == WFilling {
          WrapApart(u.gone, |u.written|, u.ring.maxSize);
        }
      case _ =>
    }
  }

  lemma {:induction false} RunFill(slots: nat, maxSize: nat, keepLast: bool, steps: seq<Step>, t: Traced)
    requires 0 < maxSize <= slots && Run(Init(slots, maxSize, keepLast), steps, t)
    ensures Inv(t) && OthersEmpty(t) && FillInv(steps, t)
    decreases |steps|
  {
    var t0 := Init(slots, maxSize, keepLast);
    if steps == [] {
      InitInv(slots, maxSize, keepLast);
    } else {
      var n := |steps| - 1;
      var u :| Run(t0, steps[..n], u) && Shaped(u.ring) && Enabled(u.ring, steps[n]) && t == Next(u, steps[n]);
      RunFill(slots, maxSize, keepLast, steps[..n], u);
      NextInv(u, steps[n]);
      NextOthersEmpty(u, steps[n]);
      NextFill(steps, u);
    }
  }

  /** In every run, the frames handed over are exactly those that the writer last wrote before each of
      its index updates. */
  lemma {:induction false} WrittenIsHandedOver(slots: nat, maxSize: nat, keepLast: bool, steps: seq<Step>, t: Traced)
    requires 0 < maxSize <= slots && Run(Init(slots, maxSize, keepLast), steps, t)
    ensures t.written == HandedOver(steps)
  {
    RunFill(slots, maxSize, keepLast, steps, t);
  }

  // ---------- the fields ----------

  class FrameQueue {
    var queue: array<Option<Frame>>
    var rindex: nat
    var windex: nat
    var size: int
    const maxSize: nat
    const keepLast: bool
    var rindexShown: int
    /** Which section each of the two threads is in. */
    ghost var writer: Writer
    ghost var reader: Reader

    constructor (maxSize: nat, keepLast: bool)
      requires maxSize > 0
      ensures Valid() && fresh(queue) && State() == Init(FRAME_QUEUE_SIZE, this.maxSize, keepLast).ring
      ensures this.maxSize == (if maxSize < FRAME_QUEUE_SIZE then maxSize else FRAME_QUEUE_SIZE)
    {
      queue := new Option<Frame>[FRAME_QUEUE_SIZE](_ => None);
      rindex, windex, size, rindexShown := 0, 0, 0, 0;
      this.maxSize := if maxSize < FRAME_QUEUE_SIZE then maxSize else FRAME_QUEUE_SIZE;
      this.keepLast := keepLast;
      writer, reader := WIdle, RIdle;
    }

    ghost predicate Valid()
      reads this, queue
    {
      queue.Length == FRAME_QUEUE_SIZE && 0 <= rindexShown <= 1 && Shaped(State())
    }

    ghost function State(): Ring
      reads this, queue
    {
      Ring(queue[..], rindex, windex, size, maxSize, keepLast, rindexShown == 1, writer, reader)
    }

    /** The slot that frame_queue_peek_writable returns; None where the source would wait. */
    method PeekWritable() returns (slot: Option<nat>)
      requires Valid() && writer == WIdle
      modifies this`writer
      ensures Valid() && (slot.None? <==> old(WriterBlocked(State())))
      ensures slot.Some? ==> slot.value == windex && old(Enabled(State(), Acquire)) && State() == old(Apply(State(), Acquire))
      ensures slot.None? ==> State() == old(State())
    {
      if size >= maxSize {
        return None;
      }
      writer := WFilling;
      return Some(windex);
    }

    /** The decoder writes the frame into its slot. */
    method FillSlot(frame: Frame)
      requires Valid() && Enabled(State(), Fill(frame))
      modifies queue
      ensures Valid() && State() == old(Apply(State(), Fill(frame)))
    {
      queue[windex] := Some(frame);
    }

    /** The first half of frame_queue_push, outside the mutex. */
    method PushIndex()
      requires Valid() && Enabled(State(), Step.PushIndex)
      modifies this`windex, this`writer
      ensures Valid() && State() == old(Apply(State(), Step.PushIndex))
    {
      windex := windex + 1;
      if windex == maxSize {
        windex := 0;
      }
      writer := WIndexed;
    }

    /** The second half of frame_queue_push, under the mutex. */
    method PushSize()
      requires Valid() && Enabled(State(), Step.PushSize)
      modifies this`size, this`writer
      ensures Valid() && State() == old(Apply(State(), Step.PushSize))
    {
      size := size + 1;
      writer := WIdle;
    }

    /** frame_queue_next up to its index update, which is still to come when more is true. */
    method Next() returns (more: bool)
      requires Valid() && reader == RIdle && Remaining(State()) > 0
      modifies this`rindexShown, this`reader, queue
      ensures Valid()
      ensures more <==> !(keepLast && old(rindexShown) == 0)
      ensures !more ==> old(Enabled(State(), Show)) && State() == old(Apply(State(), Show))
      ensures more ==> old(Enabled(State(), Unref)) && State() == old(Apply(State(), Unref))
    {
      if keepLast && rindexShown == 0 {
        rindexShown := 1;
        return false;
      }
      queue[rindex] := None;
      reader := REmptied;
      return true;
    }

    /** The index update of frame_queue_next, outside the mutex. */
    method NextIndex()
      requires Valid() && Enabled(State(), Step.NextIndex)
      modifies this`rindex, this`reader
      ensures Valid() && State() == old(Apply(State(), Step.NextIndex))
    {
      rindex := rindex + 1;
      if rindex == maxSize {
        rindex := 0;
      }
      reader := RIndexed;
    }

    /** The locked section of frame_queue_next. */
    method NextSize()
      requires Valid() && Enabled(State(), Step.NextSize)
      modifies this`size, this`reader
      ensures Valid() && State() == old(Apply(State(), Step.NextSize))
    {
      size := size - 1;
      reader := RIdle;
    }

    /** frame_queue_peek, on a ring whose history is t: the oldest frame still waiting. */
    method Peek(ghost t: Traced) returns (frame: Option<Frame>)
      requires Valid() && Inv(t) && t.ring == State() && reader != REmptied
      ensures Abstract(t).waiting != [] ==> frame == Some(Abstract(t).waiting[0])
    {
      PeeksAreFifo(t);
      WrapIsModulo(rindex + rindexShown, maxSize);
      frame := queue[(rindex + rindexShown) % maxSize];
    }
  }
}
