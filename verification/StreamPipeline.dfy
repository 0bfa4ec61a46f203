/** The receiver thread, the checker thread and the pool of buffers that carries frames from one to
    the other. Each queue operation, each reception and each check is one step; an empty queue is a
    step that cannot be taken yet. */
module StreamPipeline {
  import opened Basics
  import opened StreamSplit
  import opened FileReceiver

  /** What a thread holds: nothing, a buffer it has yet to work on, or one it is done with. */
  datatype Hand = Free | Holds(id: nat) | Done(id: nat)

  datatype System = System(
    file: seq<byte>,
    window: Window,
    emitted: seq<Segment>,
    contents: seq<seq<byte>>,
    emptyQ: seq<nat>,
    filledQ: seq<nat>,
    receiver: Hand,
    checker: Hand,
    checked: seq<seq<byte>>)

  datatype Step = GetEmpty | Recv | PutReceived | GetFilled | Check | PutChecked

  function At(contents: seq<seq<byte>>, id: nat): seq<byte> {
    if id < |contents| then contents[id] else []
  }

  predicate Enabled(s: System, step: Step)
    requires InFile(s.file, s.window)
  {
    match step
    case GetEmpty => s.receiver.Free? && s.emptyQ != []
    case Recv => s.receiver.Holds? && s.receiver.id < |s.contents| && Receive(s.file, s.window).Emitted?
    case PutReceived => s.receiver.Done?
    case GetFilled => s.checker.Free? && s.filledQ != []
    case Check => s.checker.Holds?
    case PutChecked => s.checker.Done?
  }

  function Next(s: System, step: Step): System
    requires InFile(s.file, s.window) && Enabled(s, step)
  {
    match step
    case GetEmpty =>
      s.(receiver := Holds(s.emptyQ[0]), emptyQ := s.emptyQ[1..])
    case Recv =>
      var r := Receive(s.file, s.window);
      SegmentBounds(s.file, s.window.begin);
      s.(window := r.window, emitted := s.emitted + [r.segment],
         contents := s.contents[s.receiver.id := FrameOf(s.file, r.segment)],
         receiver := Done(s.receiver.id))
    case PutReceived =>
      if |At(s.contents, s.receiver.id)| <= 6
      then s.(receiver := Free, emptyQ := s.emptyQ + [s.receiver.id])
      else s.(receiver := Free, filledQ := s.filledQ + [s.receiver.id])
    case GetFilled =>
      s.(checker := Holds(s.filledQ[0]), filledQ := s.filledQ[1..])
    case Check =>
      s.(checker := Done(s.checker.id), checked := s.checked + [At(s.contents, s.checker.id)])
    case PutChecked =>
      s.(checker := Free, emptyQ := s.emptyQ + [s.checker.id])
  }

  function Ids(n: nat): seq<nat> {
    seq(n, i requires 0 <= i => i)
  }

  function Start(file: seq<byte>, n: nat): System {
    System(file, Window(0, 0), [], seq(n, i => []), Ids(n), [], Free, Free, [])
  }

  // ---------- where the buffers are ----------

  function InHand(h: Hand): multiset<nat> {
    if h.Free? then multiset{} else multiset{h.id}
  }

  function Everywhere(s: System): multiset<nat> {
    multiset(s.emptyQ) + multiset(s.filledQ) + InHand(s.receiver) + InHand(s.checker)
  }

  lemma {:induction false} TakeFirst(q: seq<nat>)
    requires q != []
    ensures multiset(q) == multiset{q[0]} + multiset(q[1..])
  {
    assert q == [q[0]] + q[1..];
  }

  lemma {:induction false} PutLast(q: seq<nat>, id: nat)
    ensures multiset(q + [id]) == multiset(q) + multiset{id}
  {
  }

  lemma {:induction false} ReceiverKeepsBuffers(s: System, step: Step)
    requires InFile(s.file, s.window) && Enabled(s, step)
    requires step == GetEmpty || step == PutReceived
    ensures Everywhere(Next(s, step)) == Everywhere(s)
  {
    if step == GetEmpty {
      TakeFirst(s.emptyQ);
    } else {
      PutLast(s.emptyQ, s.receiver.id);
      PutLast(s.filledQ, s.receiver.id);
    }
  }

  lemma {:induction false} CheckerKeepsBuffers(s: System, step: Step)
    requires InFile(s.file, s.window) && Enabled(s, step)
    requires step == GetFilled || step == PutChecked
    ensures Everywhere(Next(s, step)) == Everywhere(s)
  {
    if step == GetFilled {
      TakeFirst(s.filledQ);
    } else {
      PutLast(s.emptyQ, s.checker.id);
    }
  }

  /** No step makes, loses or duplicates a buffer. */
  lemma {:induction false} NextKeepsBuffers(s: System, step: Step)
    requires InFile(s.file, s.window) && Enabled(s, step)
    ensures Everywhere(Next(s, step)) == Everywhere(s)
  {
    if step == GetEmpty || step == PutReceived {
      ReceiverKeepsBuffers(s, step);
    } else if step == GetFilled || step == PutChecked {
      CheckerKeepsBuffers(s, step);
    }
  }

  lemma {:induction false} EachIdOnce(n: nat, id: nat)
    ensures multiset(Ids(n))[id] == if id < n then 1 else 0
    decreases n
  {
    if n > 0 {
      EachIdOnce(n - 1, id);
      assert Ids(n) == Ids(n - 1) + [n - 1];
    }
  }

  // ---------- where the frames are ----------

  /** The frame is longer than a bare delimiter. */
  predicate Long(file: seq<byte>, g: Segment) {
    g.frame + 6 < g.end <= |file|
  }

  /** The long frames of these segments. */
  function Frames(file: seq<byte>, gs: seq<Segment>): seq<seq<byte>> {
    if gs == [] then []
    else
      var g := gs[|gs| - 1];
      var before := Frames(file, gs[..|gs| - 1]);
      if Long(file, g) then before + [FrameOf(file, g)] else before
  }

  function Load(contents: seq<seq<byte>>, ids: seq<nat>): seq<seq<byte>> {
    if ids == [] then [] else [At(contents, ids[0])] + Load(contents, ids[1..])
  }

  lemma {:induction false} LoadAppend(contents: seq<seq<byte>>, ids: seq<nat>, id: nat)
    ensures Load(contents, ids + [id]) == Load(contents, ids) + [At(contents, id)]
    decreases ids
  {
    if ids == [] {
      assert (ids + [id])[1..] == [];
    } else {
      assert (ids + [id])[1..] == ids[1..] + [id];
      LoadAppend(contents, ids[1..], id);
    }
  }

  lemma {:induction false} LoadElsewhere(contents: seq<seq<byte>>, ids: seq<nat>, id: nat, frame: seq<byte>)
    requires id < |contents| && id !in ids
    ensures Load(contents[id := frame], ids) == Load(contents, ids)
    decreases ids
  {
    if ids != [] {
      LoadElsewhere(contents, ids[1..], id, frame);
    }
  }

  /** Received but not yet checked, oldest first. */
  function InFlight(s: System): seq<seq<byte>> {
    (if s.checker.Holds? then [At(s.contents, s.checker.id)] else [])
    + Load(s.contents, s.filledQ)
    + (if s.receiver.Done? && |At(s.contents, s.receiver.id)| > 6 then [At(s.contents, s.receiver.id)] else [])
  }

  ghost predicate Inv(s: System, n: nat) {
    && InFile(s.file, s.window)
    && |s.contents| == n
    && Everywhere(s) == multiset(Ids(n))
    && s.checked + InFlight(s) == Frames(s.file, s.emitted)
    && s.emitted + Received(s.file, s.window) == Received(s.file, Window(0, 0))
  }

  lemma {:induction false} HeldOnce(s: System, n: nat)
    requires Inv(s, n) && !s.receiver.Free?
    ensures s.receiver.id < n && s.receiver.id !in s.filledQ
    ensures s.checker.Free? || s.checker.id != s.receiver.id
  {
    var id := s.receiver.id;
    EachIdOnce(n, id);
    assert Everywhere(s)[id] >= 1;
    assert id in s.filledQ ==> multiset(s.filledQ)[id] >= 1;
  }

  /** Apart from a reception, a step only moves frames along. */
  lemma {:induction false} NextKeepsFrames(s: System, step: Step)
    requires InFile(s.file, s.window) && Enabled(s, step) && step != Recv
    ensures Next(s, step).checked + InFlight(Next(s, step)) == s.checked + InFlight(s)
  {
    match step
    case GetEmpty =>
    case PutReceived => LoadAppend(s.contents, s.filledQ, s.receiver.id);
    case GetFilled =>
    case Check =>
    case PutChecked =>
  }

  lemma {:induction false} RecvAddsFrame(s: System, n: nat, g: Segment)
    requires Inv(s, n) && Enabled(s, Recv)
    requires g == Receive(s.file, s.window).segment && g.frame <= g.end <= |s.file|
    ensures InFlight(Next(s, Recv)) == InFlight(s) + (if g.frame + 6 < g.end then [FrameOf(s.file, g)] else [])
  {
    HeldOnce(s, n);
    LoadElsewhere(s.contents, s.filledQ, s.receiver.id, FrameOf(s.file, g));
  }

  lemma {:induction false} FramesAppend(file: seq<byte>, gs: seq<Segment>, g: Segment)
    requires g.frame <= g.end <= |file|
    ensures Frames(file, gs + [g]) == Frames(file, gs) + (if g.frame + 6 < g.end then [FrameOf(file, g)] else [])
  {
    assert (gs + [g])[..|gs|] == gs;
  }

  lemma {:induction false} RecvKeepsFrames(s: System, n: nat)
    requires Inv(s, n) && Enabled(s, Recv)
    ensures var t := Next(s, Recv); t.checked + InFlight(t) == Frames(t.file, t.emitted)
  {
    var g := Receive(s.file, s.window).segment;
    SegmentBounds(s.file, s.window.begin);
    RecvAddsFrame(s, n, g);
    FramesAppend(s.file, s.emitted, g);
  }

  lemma {:induction false} RecvKeepsEmissions(s: System, n: nat)
    requires Inv(s, n) && Enabled(s, Recv)
    ensures var t := Next(s, Recv); t.emitted + Received(t.file, t.window) == Received(t.file, Window(0, 0))
  {
    var r := Receive(s.file, s.window);
    assert (s.emitted + [r.segment]) + Received(s.file, r.window)
        == s.emitted + ([r.segment] + Received(s.file, r.window));
  }

  lemma {:induction false} NextKeepsInv(s: System, n: nat, step: Step)
    requires Inv(s, n) && Enabled(s, step)
    ensures Inv(Next(s, step), n)
  {
    NextKeepsBuffers(s, step);
    if step == Recv {
      RecvKeepsFrames(s, n);
      RecvKeepsEmissions(s, n);
    } else {
      NextKeepsFrames(s, step);
    }
  }

  // ---------- whole runs ----------

  /** t is reached from s by these steps. */
  ghost predicate Run(s: System, steps: seq<Step>, t: System)
    decreases steps
  {
    if steps == [] then s == t
    else InFile(s.file, s.window) && Enabled(s, steps[0]) && Run(Next(s, steps[0]), steps[1..], t)
  }

  lemma {:induction false} RunKeepsInv(s: System, n: nat, steps: seq<Step>, t: System)
    requires Inv(s, n) && Run(s, steps, t)
    ensures Inv(t, n) && t.file == s.file
    decreases steps
  {
    if steps != [] {
      NextKeepsInv(s, n, steps[0]);
      RunKeepsInv(Next(s, steps[0]), n, steps[1..], t);
    }
  }

  lemma {:induction false} ReachableInv(file: seq<byte>, n: nat, steps: seq<Step>, t: System)
    requires Run(Start(file, n), steps, t)
    ensures Inv(t, n) && t.file == file
  {
    RunKeepsInv(Start(file, n), n, steps, t);
  }

  /** Each buffer is in exactly one of the two queues and the two hands. */
  lemma {:induction false} EachBufferIsInOnePlace(file: seq<byte>, n: nat, steps: seq<Step>, t: System, id: nat)
    requires Run(Start(file, n), steps, t)
    ensures Everywhere(t)[id] == if id < n then 1 else 0
  {
    ReachableInv(file, n, steps, t);
    EachIdOnce(n, id);
  }

  /** The frames checked and those in flight are the frames emitted, unmodified and in order, and
      what is emitted begins the reference split of the file. */
  lemma {:induction false} CheckedThenInFlight(file: seq<byte>, n: nat, steps: seq<Step>, t: System)
    requires Run(Start(file, n), steps, t)
    ensures t.checked + InFlight(t) == Frames(file, t.emitted)
    ensures t.emitted <= Split(file, 0)
    ensures t.checked <= Frames(file, Split(file, 0))
  {
    ReachableInv(file, n, steps, t);
    EmittedBeginsSplit(file, t.emitted, t.window);
    FramesOfPrefix(file, t.emitted, Split(file, 0)[|t.emitted|..]);
  }

  lemma {:induction false} EmittedBeginsSplit(file: seq<byte>, emitted: seq<Segment>, w: Window)
    requires InFile(file, w) && emitted + Received(file, w) == Received(file, Window(0, 0))
    ensures emitted <= Split(file, 0) && emitted + Split(file, 0)[|emitted|..] == Split(file, 0)
  {
    ReceivedIsPrefix(file, Window(0, 0));
    assert emitted <= Received(file, Window(0, 0)) <= Split(file, 0);
  }

  lemma {:induction false} FramesOfPrefix(file: seq<byte>, gs: seq<Segment>, rest: seq<Segment>)
    ensures Frames(file, gs) <= Frames(file, gs + rest)
    decreases rest
  {
    if rest == [] {
      assert gs + rest == gs;
    } else {
      var last := |rest| - 1;
      assert (gs + rest)[..|gs + rest| - 1] == gs + rest[..last];
      FramesOfPrefix(file, gs, rest[..last]);
    }
  }

  lemma {:induction false} LoadLength(contents: seq<seq<byte>>, ids: seq<nat>)
    ensures |Load(contents, ids)| == |ids|
    decreases ids
  {
    if ids != [] {
      LoadLength(contents, ids[1..]);
    }
  }

  /** No more frames wait for the checker than there are buffers; one less while the receiver is at
      work, and so at either of its exits, which end the checker too. */
  lemma {:induction false} UncheckedIsBounded(file: seq<byte>, n: nat, steps: seq<Step>, t: System)
    requires Run(Start(file, n), steps, t)
    ensures |Frames(file, t.emitted)| - |t.checked| <= n - (if t.receiver.Holds? then 1 else 0)
  {
    ReachableInv(file, n, steps, t);
    LoadLength(t.contents, t.filledQ);
    assert |Everywhere(t)| == |Ids(n)|;
  }

  /** With at least one buffer the threads never block each other: some step can be taken until the
      receiver, with a buffer in hand, reaches one of its exits. */
  lemma {:induction false} NeverStuck(file: seq<byte>, n: nat, steps: seq<Step>, t: System)
    requires Run(Start(file, n), steps, t) && n > 0
    ensures InFile(t.file, t.window)
    ensures (exists step :: Enabled(t, step)) || (t.receiver.Holds? && !Receive(t.file, t.window).Emitted?)
  {
    ReachableInv(file, n, steps, t);
    if t.receiver.Holds? {
      HeldOnce(t, n);
      assert Enabled(t, Recv) <==> Receive(t.file, t.window).Emitted?;
    } else if t.receiver.Done? {
      assert Enabled(t, PutReceived);
    } else if t.checker.Holds? {
      assert Enabled(t, Check);
    } else if t.checker.Done? {
      assert Enabled(t, PutChecked);
    } else {
      assert |Everywhere(t)| == |Ids(n)|;
      assert Enabled(t, GetEmpty) || Enabled(t, GetFilled);
    }
  }

  // ---------- what an exit leaves unchecked ----------

  /** The receiver stands at one of its two exits, which end the whole process. */
  ghost predicate AtExit(t: System) {
    t.receiver.Holds? && InFile(t.file, t.window) && !Receive(t.file, t.window).Emitted?
  }

  lemma {:induction false} RunCons(s: System, step: Step, steps: seq<Step>, t: System)
    requires InFile(s.file, s.window) && Enabled(s, step) && Run(Next(s, step), steps, t)
    ensures Run(s, [step] + steps, t)
  {
    assert ([step] + steps)[1..] == steps;
  }

  lemma {:induction false} RunThen(s: System, a: seq<Step>, u: System, b: seq<Step>, t: System)
    requires Run(s, a, u) && Run(u, b, t)
    ensures Run(s, a + b, t)
    decreases a
  {
    if a == [] {
      assert a + b == b;
    } else {
      RunThen(Next(s, a[0]), a[1..], u, b, t);
      RunCons(s, a[0], a[1..] + b, t);
      assert [a[0]] + (a[1..] + b) == a + b;
    }
  }

  lemma {:induction false} OneStep(s: System, step: Step)
    requires InFile(s.file, s.window) && Enabled(s, step)
    ensures Run(s, [step], Next(s, step))
  {
    RunCons(s, step, [], Next(s, step));
    assert [step] + [] == [step];
  }

  /** The checker takes the only waiting frame, checks it and gives its buffer back. */
  lemma {:induction false} CheckWaiting(s: System, n: nat) returns (steps: seq<Step>, u: System)
    requires Inv(s, n) && s.checker.Free? && |s.filledQ| == 1
    ensures Inv(u, n) && Run(s, steps, u)
    ensures u.file == s.file && u.window == s.window && u.receiver == s.receiver
    ensures u.checker.Free? && u.filledQ == []
  {
    var s1 := Next(s, GetFilled);
    NextKeepsInv(s, n, GetFilled);
    var s2 := Next(s1, Check);
    NextKeepsInv(s1, n, Check);
    u := Next(s2, PutChecked);
    NextKeepsInv(s2, n, PutChecked);
    OneStep(s, GetFilled);
    OneStep(s1, Check);
    OneStep(s2, PutChecked);
    RunThen(s, [GetFilled], s1, [Check], s2);
    RunThen(s, [GetFilled] + [Check], s2, [PutChecked], u);
    steps := [GetFilled] + [Check] + [PutChecked];
  }

  /** With the checker idle, at most one frame waiting and two buffers or more, the receiver finds an
      empty buffer. */
  lemma {:induction false} SomeEmpty(s: System, n: nat)
    requires Inv(s, n) && n >= 2 && s.checker.Free? && s.receiver.Free? && |s.filledQ| <= 1
    ensures Enabled(s, GetEmpty)
  {
    assert |Everywhere(s)| == |Ids(n)|;
  }

  lemma {:induction false} PutInto(s: System, n: nat) returns (u: System)
    requires Inv(s, n) && s.receiver.Holds? && Receive(s.file, s.window).Emitted?
    ensures Inv(u, n) && Run(s, [Recv] + [PutReceived], u)
    ensures u.file == s.file && u.window == Receive(s.file, s.window).window
    ensures u.checker == s.checker && u.receiver.Free?
    ensures |u.filledQ| == |s.filledQ| + if Long(s.file, Receive(s.file, s.window).segment) then 1 else 0
  {
    HeldOnce(s, n);
    SegmentBounds(s.file, s.window.begin);
    var s1 := Next(s, Recv);
    NextKeepsInv(s, n, Recv);
    OneStep(s, Recv);
    u := Next(s1, PutReceived);
    NextKeepsInv(s1, n, PutReceived);
    OneStep(s1, PutReceived);
    RunThen(s, [Recv], s1, [PutReceived], u);
  }

  /** The receiver takes in one more frame, long or not, and the next empty buffer. */
  lemma {:induction false} ReceiveOne(s: System, n: nat) returns (steps: seq<Step>, u: System)
    requires Inv(s, n) && n >= 2 && s.checker.Free? && s.receiver.Holds? && |s.filledQ| <= 1
    requires Receive(s.file, s.window).Emitted?
    requires Long(s.file, Receive(s.file, s.window).segment) ==> s.filledQ == []
    ensures Inv(u, n) && Run(s, steps, u)
    ensures u.file == s.file && u.window == Receive(s.file, s.window).window
    ensures u.checker.Free? && u.receiver.Holds?
    ensures |u.filledQ| == if Long(s.file, Receive(s.file, s.window).segment) then 1 else |s.filledQ|
  {
    var v := PutInto(s, n);
    SomeEmpty(v, n);
    u := Next(v, GetEmpty);
    NextKeepsInv(v, n, GetEmpty);
    OneStep(v, GetEmpty);
    steps := [Recv] + [PutReceived] + [GetEmpty];
    RunThen(s, [Recv] + [PutReceived], v, [GetEmpty], u);
  }

  lemma {:induction false} NoFramesIff(file: seq<byte>, gs: seq<Segment>)
    ensures Frames(file, gs) == [] <==> forall k | 0 <= k < |gs| :: !Long(file, gs[k])
    decreases gs
  {
    if gs != [] {
      NoFramesIff(file, gs[..|gs| - 1]);
    }
  }

  lemma {:induction false} FirstOrRest(file: seq<byte>, g: Segment, gs: seq<Segment>)
    ensures Frames(file, [g] + gs) == [] <==> !Long(file, g) && Frames(file, gs) == []
  {
    NoFramesIff(file, [g] + gs);
    NoFramesIff(file, gs);
    assert ([g] + gs)[0] == g && forall k | 0 <= k < |gs| :: gs[k] == ([g] + gs)[k + 1];
  }

  /** With two buffers the checker can lag one frame behind all the way: each long frame waits until
      the next one is about to come, and the last one until the exit. */
  lemma {:induction false} LagToExit(s: System, n: nat) returns (steps: seq<Step>, t: System)
    requires Inv(s, n) && n >= 2 && s.checker.Free? && s.receiver.Holds? && |s.filledQ| <= 1
    ensures Run(s, steps, t) && AtExit(t) && Inv(t, n)
    ensures s.filledQ != [] || Frames(s.file, Received(s.file, s.window)) != [] ==> t.filledQ != []
    decreases |s.file| - s.window.begin
  {
    var r := Receive(s.file, s.window);
    if !r.Emitted? {
      steps, t := [], s;
    } else {
      var a, u := [], s;
      if s.filledQ != [] && Long(s.file, r.segment) {
        a, u := CheckWaiting(s, n);
      }
      var b, v := ReceiveOne(u, n);
      var c;
      c, t := LagToExit(v, n);
      RunThen(s, a, u, b, v);
      RunThen(s, a + b, v, c, t);
      steps := a + b + c;
      FirstOrRest(s.file, r.segment, Received(s.file, r.window));
    }
  }

  /** Some run ends at an exit in this state. */
  ghost predicate EndsIn(file: seq<byte>, n: nat, t: System) {
    AtExit(t) && exists steps :: Run(Start(file, n), steps, t)
  }

  /** Nothing emitted is left unchecked at the end of any run exactly when there is only one buffer,
      so that receiver and checker take turns, or there is nothing to check. */
  lemma {:induction false} AllCheckedAtExitIff(file: seq<byte>, n: nat)
    requires n > 0
    ensures (forall t | EndsIn(file, n, t) :: t.checked == Frames(file, t.emitted))
            <==> n == 1 || Frames(file, Received(file, Window(0, 0))) == []
  {
    if n == 1 || Frames(file, Received(file, Window(0, 0))) == [] {
      forall t | EndsIn(file, n, t)
        ensures t.checked == Frames(file, t.emitted)
      {
        var steps :| Run(Start(file, n), steps, t);
        AllCheckedAtExit(file, n, steps, t);
      }
    } else {
      var steps, t := SomeUncheckedAtExit(file, n);
      assert EndsIn(file, n, t);
    }
  }

  lemma {:induction false} AllCheckedAtExit(file: seq<byte>, n: nat, steps: seq<Step>, t: System)
    requires Run(Start(file, n), steps, t) && AtExit(t)
    requires n == 1 || Frames(file, Received(file, Window(0, 0))) == []
    ensures t.checked == Frames(file, t.emitted)
  {
    ReachableInv(file, n, steps, t);
    if n == 1 {
      UncheckedIsBounded(file, n, steps, t);
    } else {
      FramesOfPrefix(file, t.emitted, Received(file, t.window));
    }
    assert |t.checked + InFlight(t)| == |Frames(file, t.emitted)|;
    assert t.checked + [] == t.checked;
  }

  lemma {:induction false} SomeUncheckedAtExit(file: seq<byte>, n: nat) returns (steps: seq<Step>, t: System)
    requires n >= 2 && Frames(file, Received(file, Window(0, 0))) != []
    ensures Run(Start(file, n), steps, t) && AtExit(t) && t.checked != Frames(file, t.emitted)
  {
    var s := Start(file, n);
    var u := Next(s, GetEmpty);
    OneStep(s, GetEmpty);
    ReachableInv(file, n, [GetEmpty], u);
    var rest;
    rest, t := LagToExit(u, n);
    RunThen(s, [GetEmpty], u, rest, t);
    steps := [GetEmpty] + rest;
    LoadLength(t.contents, t.filledQ);
    RunKeepsInv(s, n, steps, t);
    assert |InFlight(t)| > 0;
  }

  // ---------- one such file ----------

  /** One frame of eleven bytes, and zeros up to a full buffer. */
  function OneFrame(): (file: seq<byte>)
    ensures |file| == BUFFER_SIZE
    ensures file[0] == file[1] == file[2] == 0 && file[3] == 1 && file[4] == 7
    ensures forall k | 0 <= k < 6 :: file[5 + k] == AUD[k]
    ensures forall i | 11 <= i < |file| :: file[i] == 0
  {
    [0, 0, 0, 1, 7] + AUD + seq(BUFFER_SIZE - 11, i => 0)
  }

  lemma {:induction false} OneFrameOnly(file: seq<byte>)
    requires |file| == BUFFER_SIZE
    requires file[0] == file[1] == file[2] == 0 && file[3] == 1 && file[4] == 7
    requires forall k | 0 <= k < 6 :: file[5 + k] == AUD[k]
    requires forall i | 11 <= i < |file| :: file[i] == 0
    ensures FirstAt(AUD, file, 0) == 5 && FirstAt(HEADER, file, 0) == 0 && FirstAt(AUD, file, 11) == |file|
  {
    forall i | 0 <= i < 5
      ensures !IsAt(AUD, file, i)
    {
      var k := if i < 2 then 4 - i else if i < 4 then 3 - i else 0;
      assert file[i + k] != AUD[k];
    }
    assert IsAt(AUD, file, 5) && IsAt(HEADER, file, 0);
    NoneBefore(AUD, file, 0, 5);
    NoneBefore(HEADER, file, 0, 0);
    forall i | 11 <= i < |file|
      ensures !IsAt(AUD, file, i)
    {
      assert i + 6 <= |file| ==> file[i + 3] != AUD[3];
    }
  }

  lemma {:induction false} OneFrameRun(file: seq<byte>)
    requires |file| == BUFFER_SIZE
    requires FirstAt(AUD, file, 0) == 5 && FirstAt(HEADER, file, 0) == 0 && FirstAt(AUD, file, 11) == |file|
    ensures Exit(file).Passed? && Received(file, Window(0, 0)) == [Segment(0, 0, 11)]
    ensures Frames(file, [Segment(0, 0, 11)]) == [file[..11]]
  {
    var w := Window(11, BUFFER_SIZE);
    assert Receive(file, Window(0, 0)) == Emitted(Segment(0, 0, 11), w);
    assert Received(file, w) == [];
    var gs := [Segment(0, 0, 11)];
    assert gs[..0] == [];
  }

  /** On this file, and with the ten buffers of the tool's pool, the test can pass with the only frame
      unchecked. */
  lemma {:induction false} PassesUnchecked(file: seq<byte>) returns (t: System)
    requires file == OneFrame()
    ensures Exit(file).Passed? && Frames(file, Received(file, Window(0, 0))) == [file[..11]]
    ensures EndsIn(file, 10, t) && t.checked != Frames(file, t.emitted)
  {
    OneFrameOnly(file);
    OneFrameRun(file);
    var steps;
    steps, t := SomeUncheckedAtExit(file, 10);
    assert Run(Start(file, 10), steps, t);
  }
}
