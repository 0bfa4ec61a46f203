/** The cfrm branch of decode_frame: interleaved fragments collected in a fixed number of slots. */
module FragmentReassembly {
  import opened Basics

  const COUNT := 100
  const PADDING := 64
  const UINT_MAX := 0xFFFF_FFFF

  datatype Slot = Slot(id: int, data: seq<byte>)

  type Slots = s: seq<Slot> | |s| == COUNT witness seq(COUNT, _ => Slot(0, []))

  /** A cfrm packet: its id, the size of the whole frame, and the bytes it carries. */
  datatype Fragment = Fragment(id: int, wholeSize: int, payload: seq<byte>)

  datatype Outcome = Rejected | Waiting | Complete(frame: seq<byte>)

  // ---------- the choice of a slot ----------

  /** The first slot from k on with this id; COUNT when there is none. */
  function FirstWith(s: Slots, id: int, k: nat): (r: nat)
    requires k <= COUNT
    ensures k <= r <= COUNT
    ensures r < COUNT ==> s[r].id == id
    ensures forall i | k <= i < r :: s[i].id != id
    decreases COUNT - k, s
  {
    if k == COUNT || s[k].id == id then k else FirstWith(s, id, k + 1)
  }

  /** The last empty slot below k; COUNT when there is none. */
  function LastEmpty(s: Slots, k: nat): (r: nat)
    requires k <= COUNT
    ensures r < k || r == COUNT
    ensures r < COUNT ==> s[r].data == [] && forall i | r < i < k :: s[i].data != []
    ensures r == COUNT ==> forall i | 0 <= i < k :: s[i].data != []
    decreases k, s
  {
    if k == 0 then COUNT else if s[k - 1].data == [] then k - 1 else LastEmpty(s, k - 1)
  }

  function Target(s: Slots, id: int): nat {
    var k := FirstWith(s, id, 0);
    if k < COUNT then k else LastEmpty(s, COUNT)
  }

  /** The source indexes its slots without a check: it relies on one being free for a new id. */
  predicate HasRoom(s: Slots, id: int) {
    Target(s, id) < COUNT
  }

  predicate TooBig(held: seq<byte>, f: Fragment) {
    |f.payload| > UINT_MAX - |held| - PADDING
  }

  /** What one packet does to the slots. */
  function Step(s: Slots, f: Fragment): (r: (Slots, Outcome))
    requires f.wholeSize >= 0 ==> HasRoom(s, f.id)
  {
    if f.wholeSize < 0 then (s, Rejected)
    else
      var k := Target(s, f.id);
      if TooBig(s[k].data, f) then (s[k := Slot(f.id, s[k].data)], Rejected)
      else
        var held := s[k].data + f.payload;
        if |held| >= f.wholeSize then (s[k := Slot(0, [])], Complete(held))
        else (s[k := Slot(f.id, held)], Waiting)
  }

  // ---------- the bytes of one id, without slots ----------

  /** The bytes collected for an id since its last complete frame, and what its next packet makes
      of them. */
  function Collect(held: seq<byte>, f: Fragment): (r: (seq<byte>, Outcome)) {
    if f.wholeSize < 0 || TooBig(held, f) then (held, Rejected)
    else if |held + f.payload| >= f.wholeSize then ([], Complete(held + f.payload))
    else (held + f.payload, Waiting)
  }

  /** Looks at the packets of this id only. */
  function Collected(h: seq<Fragment>, id: int): seq<byte> {
    if h == [] then []
    else
      var f := h[|h| - 1];
      var held := Collected(h[..|h| - 1], id);
      if f.id == id then Collect(held, f).0 else held
  }

  function Only(h: seq<Fragment>, id: int): seq<Fragment> {
    if h == [] then []
    else
      var f := h[|h| - 1];
      Only(h[..|h| - 1], id) + if f.id == id then [f] else []
  }

  /** Packets of other ids make no difference, wherever they come in between. */
  lemma {:induction false} InterleavingIsIrrelevant(h: seq<Fragment>, id: int)
    ensures Collected(h, id) == Collected(Only(h, id), id)
  {
    if h != [] {
      var n := |h| - 1;
      InterleavingIsIrrelevant(h[..n], id);
      if h[n].id == id {
        assert Only(h, id)[..|Only(h, id)| - 1] == Only(h[..n], id);
      } else {
        assert Only(h, id) == Only(h[..n], id);
      }
    }
  }

  // ---------- every run ----------

  function Empty(): Slots {
    seq(COUNT, _ => Slot(0, []))
  }

  datatype State = Stuck | At(slots: Slots)

  /** The slots after a run; Stuck when a packet of a new id found no room. */
  function Run(h: seq<Fragment>): State {
    if h == [] then At(Empty())
    else
      var f, before := h[|h| - 1], Run(h[..|h| - 1]);
      if before.At? && (f.wholeSize >= 0 ==> HasRoom(before.slots, f.id)) then At(Step(before.slots, f).0) else Stuck
  }

  predicate Runs(h: seq<Fragment>) {
    Run(h).At?
  }

  function After(h: seq<Fragment>): Slots
    requires Runs(h)
  {
    Run(h).slots
  }

  /** The bytes that the next packet of this id would be appended to. */
  function Held(s: Slots, id: int): seq<byte> {
    var k := FirstWith(s, id, 0);
    if k < COUNT then s[k].data else []
  }

  ghost predicate Distinct(s: Slots) {
    forall i, j | 0 <= i < j < COUNT && s[i].id != 0 :: s[i].id != s[j].id
  }

  lemma {:induction false} FirstIs(s: Slots, id: int, k: nat)
    requires k < COUNT && s[k].id == id && forall i | 0 <= i < k :: s[i].id != id
    ensures FirstWith(s, id, 0) == k
  {
  }

  lemma {:induction false} NoneWith(s: Slots, id: int)
    requires forall i | 0 <= i < COUNT :: s[i].id != id
    ensures FirstWith(s, id, 0) == COUNT
  {
  }

  /** One packet refines Collect for its own id and leaves all other non-zero ids alone. */
  lemma {:induction false} StepRefines(s: Slots, f: Fragment, id: int)
    requires Distinct(s) && (f.wholeSize >= 0 ==> HasRoom(s, f.id)) && id != 0
    ensures Distinct(Step(s, f).0)
    ensures f.id == id ==> Step(s, f).1 == Collect(Held(s, id), f).1
    ensures Held(Step(s, f).0, id) == if f.id == id then Collect(Held(s, id), f).0 else Held(s, id)
  {
    if f.wholeSize >= 0 {
      var k, s' := Target(s, f.id), Step(s, f).0;
      var m := FirstWith(s, id, 0);
      if f.id == id {
        assert s[k].data == Held(s, id);
        if s'[k].id == id {
          FirstIs(s', id, k);
        } else {
          NoneWith(s', id);
        }
      } else if m == COUNT {
        NoneWith(s', id);
      } else if m == k {
        assert s[k].data == [];
        NoneWith(s', id);
      } else {
        FirstIs(s', id, m);
      }
    }
  }

  /** In every run, the bytes held for a non-zero id are those of its own packets since its last
      complete frame. */
  lemma {:induction false} HeldIsCollected(h: seq<Fragment>, id: int)
    requires Runs(h) && id != 0
    ensures Distinct(After(h)) && Held(After(h), id) == Collected(h, id)
  {
    if h == [] {
      NoneWith(After(h), id);
    } else {
      var n := |h| - 1;
      HeldIsCollected(h[..n], id);
      StepRefines(After(h[..n]), h[n], id);
    }
  }

  // ---------- what a completed frame is made of ----------

  /** What the packet at place i of a run was answered. */
  function AnswerAt(h: seq<Fragment>, i: nat): Outcome
    requires i < |h|
  {
    var before := Run(h[..i]);
    if before.At? && (h[i].wholeSize >= 0 ==> HasRoom(before.slots, h[i].id)) then Step(before.slots, h[i]).1
    else Rejected
  }

  /** The place behind the last packet that completed a frame of this id. */
  function Since(h: seq<Fragment>, id: int): (k: nat)
    ensures k <= |h|
  {
    if h == [] then 0
    else
      var n := |h| - 1;
      if h[n].id == id && AnswerAt(h, n).Complete? then |h| else Since(h[..n], id)
  }

  /** The payloads of this id's packets from place k on, rejected ones left out, one after the other. */
  function Payloads(h: seq<Fragment>, id: int, k: nat): seq<byte> {
    if |h| <= k then []
    else
      var n := |h| - 1;
      Payloads(h[..n], id, k) + if h[n].id == id && !AnswerAt(h, n).Rejected? then h[n].payload else []
  }

  lemma {:induction false} SameAnswer(h: seq<Fragment>, n: nat, i: nat)
    requires i < n <= |h|
    ensures AnswerAt(h[..n], i) == AnswerAt(h, i)
  {
    assert h[..n][..i] == h[..i];
  }

  /** No packet from that place on completed a frame of this id, and the one before it did. */
  lemma {:induction false} SinceIs(h: seq<Fragment>, id: int, i: nat)
    requires i < |h|
    ensures Since(h, id) <= i && h[i].id == id ==> !AnswerAt(h, i).Complete?
    ensures Since(h, id) == i + 1 ==> h[i].id == id && AnswerAt(h, i).Complete?
  {
    var n := |h| - 1;
    if i < n {
      SinceIs(h[..n], id, i);
      SameAnswer(h, n, i);
    }
  }

  lemma {:induction false} LastAnswer(h: seq<Fragment>)
    requires Runs(h) && h != [] && h[|h| - 1].id != 0
    ensures var n := |h| - 1;
            AnswerAt(h, n) == Collect(Collected(h[..n], h[n].id), h[n]).1
  {
    var n := |h| - 1;
    HeldIsCollected(h[..n], h[n].id);
    StepRefines(After(h[..n]), h[n], h[n].id);
  }

  lemma {:induction false} CollectedIsPayloads(h: seq<Fragment>, id: int)
    requires Runs(h) && id != 0
    ensures Collected(h, id) == Payloads(h, id, Since(h, id))
  {
    if h != [] {
      var n := |h| - 1;
      CollectedIsPayloads(h[..n], id);
      if h[n].id == id {
        LastAnswer(h);
      }
    }
  }

  /** A frame completed after a run is the concatenation of exactly the payloads of its id accepted
      since the last frame of that id, in order, and its own; it is complete as soon as it is long
      enough, and rejected only when too long or when its size is negative. */
  lemma {:induction false} CompletedIsConcatenation(h: seq<Fragment>, f: Fragment)
    requires Runs(h) && f.id != 0 && (f.wholeSize >= 0 ==> HasRoom(After(h), f.id))
    ensures var parts := Payloads(h, f.id, Since(h, f.id));
            Step(After(h), f).1
            == if f.wholeSize < 0 || |parts| + |f.payload| > UINT_MAX - PADDING then Rejected
               else if |parts| + |f.payload| >= f.wholeSize then Complete(parts + f.payload)
               else Waiting
  {
    HeldIsCollected(h, f.id);
    CollectedIsPayloads(h, f.id);
    StepRefines(After(h), f, f.id);
  }

  // ---------- when a new id finds room ----------

  predicate NoZero(h: seq<Fragment>) {
    forall i | 0 <= i < |h| :: h[i].id != 0
  }

  function Ids(h: seq<Fragment>): set<int> {
    set f | f in h :: f.id
  }

  /** The ids that have bytes waiting after a run. */
  function Busy(h: seq<Fragment>): set<int> {
    set id | id in Ids(h) && Collected(h, id) != []
  }

  /** The ids of the slots below n that hold bytes. */
  function SlotIds(s: Slots, n: nat): set<int>
    requires n <= COUNT
    decreases n, s
  {
    if n == 0 then {}
    else SlotIds(s, n - 1) + if s[n - 1].data != [] then {s[n - 1].id} else {}
  }

  ghost predicate Marked(s: Slots) {
    forall i | 0 <= i < COUNT && s[i].data != [] :: s[i].id != 0
  }

  lemma {:induction false} SlotIdsAre(s: Slots, n: nat, id: int)
    requires n <= COUNT
    ensures id in SlotIds(s, n) <==> exists i :: 0 <= i < n && s[i].data != [] && s[i].id == id
    decreases n
  {
    if n > 0 {
      SlotIdsAre(s, n - 1, id);
      if s[n - 1].data != [] && s[n - 1].id == id {
        assert 0 <= n - 1 < n && s[n - 1].data != [];
      }
    }
  }

  lemma {:induction false} SlotIdsCount(s: Slots, n: nat)
    requires n <= COUNT && Distinct(s) && Marked(s)
    ensures |SlotIds(s, n)| <= n
    ensures |SlotIds(s, n)| == n <==> forall i | 0 <= i < n :: s[i].data != []
    decreases n
  {
    if n > 0 {
      SlotIdsCount(s, n - 1);
      SlotIdsAre(s, n - 1, s[n - 1].id);
    }
  }

  lemma {:induction false} AlwaysMarked(h: seq<Fragment>)
    requires Runs(h) && NoZero(h)
    ensures Marked(After(h))
  {
    if h != [] {
      var n := |h| - 1;
      AlwaysMarked(h[..n]);
      assert h[n].id != 0;
    }
  }

  lemma {:induction false} BusyAreSlotIds(h: seq<Fragment>)
    requires Runs(h) && NoZero(h)
    ensures Busy(h) == SlotIds(After(h), COUNT)
  {
    var s := After(h);
    AlwaysMarked(h);
    forall id
      ensures id in Busy(h) <==> id in SlotIds(s, COUNT)
    {
      SlotIdsAre(s, COUNT, id);
      if id in Ids(h) {
        HeldIsCollected(h, id);
      }
      if id in SlotIds(s, COUNT) {
        var i :| 0 <= i < COUNT && s[i].data != [] && s[i].id == id;
        HeldIsCollected(h, id);
        FirstIs(s, id, i);
        OnlyFromPackets(h, id);
      }
    }
  }

  /** Bytes are collected only for ids that occur. */
  lemma {:induction false} OnlyFromPackets(h: seq<Fragment>, id: int)
    ensures Collected(h, id) != [] ==> id in Ids(h)
  {
    if h != [] {
      var n := |h| - 1;
      OnlyFromPackets(h[..n], id);
      if h[n].id == id {
        assert h[n] in h;
      } else if id in Ids(h[..n]) {
        var f :| f in h[..n] && f.id == id;
        assert f in h;
      }
    }
  }

  /** In a run without id 0, a packet finds room exactly when bytes of its id are waiting already or
      fewer than 100 ids have bytes waiting. */
  lemma {:induction false} RoomIff(h: seq<Fragment>, id: int)
    requires Runs(h) && NoZero(h) && id != 0
    ensures HasRoom(After(h), id) <==> Collected(h, id) != [] || |Busy(h)| < COUNT
  {
    HeldIsCollected(h, id);
    AlwaysMarked(h);
    BusyAreSlotIds(h);
    SlotIdsCount(After(h), COUNT);
  }

  /** The same for a whole run: it never runs out of slots exactly when every packet finds room so. */
  lemma {:induction false} RunsIff(h: seq<Fragment>)
    requires NoZero(h)
    ensures Runs(h) <==> forall i | 0 <= i < |h| && h[i].wholeSize >= 0 ::
                           Collected(h[..i], h[i].id) != [] || |Busy(h[..i])| < COUNT
  {
    if h != [] {
      var n := |h| - 1;
      RunsIff(h[..n]);
      assert forall i | 0 <= i < n :: h[..n][..i] == h[..i] && h[..n][i] == h[i];
      assert h[n].id != 0;
      if Runs(h[..n]) {
        RoomIff(h[..n], h[n].id);
      }
    }
  }

  // ---------- id zero ----------

  /** Slots 99, 98, ... hold one byte each of the ids 1, 2, ... */
  function Filled(n: nat, b: byte): Slots
    requires n <= COUNT
  {
    seq(COUNT, i requires 0 <= i < COUNT => if i >= COUNT - n then Slot(COUNT - i, [b]) else Slot(0, []))
  }

  lemma {:induction false} Extend(h: seq<Fragment>, f: Fragment)
    requires Runs(h) && f.wholeSize >= 0 && HasRoom(After(h), f.id)
    ensures Runs(h + [f]) && After(h + [f]) == Step(After(h), f).0
  {
    assert (h + [f])[..|h|] == h && (h + [f])[|h|] == f;
  }

  lemma {:induction false} CollectNext(h: seq<Fragment>, f: Fragment, id: int)
    ensures Collected(h + [f], id) == if f.id == id then Collect(Collected(h, id), f).0 else Collected(h, id)
  {
    assert (h + [f])[..|h|] == h && (h + [f])[|h|] == f;
  }

  /** A packet of a new id takes the last empty slot. */
  lemma {:induction false} TakeSlot(s: Slots, k: nat, f: Fragment)
    requires k < COUNT && s[k].data == [] && f.id != 0 && |f.payload| == 1 && f.wholeSize > 1
    requires forall i | k < i < COUNT :: s[i].data != []
    requires forall i | 0 <= i < COUNT :: s[i].id != f.id
    ensures HasRoom(s, f.id) && Step(s, f).0 == s[k := Slot(f.id, f.payload)]
  {
    NoneWith(s, f.id);
    assert LastEmpty(s, COUNT) == k;
    assert [] + f.payload == f.payload;
  }

  /** Some run puts one byte each of the ids 1 to n into the slots from the end on. */
  lemma {:induction false} FillUp(n: nat, b: byte) returns (h: seq<Fragment>)
    requires n <= COUNT
    ensures Runs(h) && After(h) == Filled(n, b) && Collected(h, 0) == []
  {
    if n == 0 {
      h := [];
      assert Filled(n, b) == Empty();
    } else {
      var g := FillUp(n - 1, b);
      var f := Fragment(n, 2, [b]);
      TakeSlot(Filled(n - 1, b), COUNT - n, f);
      Extend(g, f);
      CollectNext(g, f, 0);
      h := g + [f];
      assert Filled(n - 1, b)[COUNT - n := Slot(n, [b])] == Filled(n, b);
    }
  }

  /** One more packet, which finds its id in slot k. */
  lemma {:induction false} FoundAt(h: seq<Fragment>, s: Slots, k: nat, f: Fragment) returns (g: seq<Fragment>)
    requires Runs(h) && After(h) == s && k < COUNT && s[k].id == f.id
    requires forall i | 0 <= i < k :: s[i].id != f.id
    requires |f.payload| == 1 && |s[k].data| <= 1 && f.wholeSize > 0
    ensures Runs(g)
    ensures After(g) == s[k := if |s[k].data| + 1 >= f.wholeSize then Slot(0, []) else Slot(f.id, s[k].data + f.payload)]
    ensures Collected(g, 0) == if f.id == 0 then Collect(Collected(h, 0), f).0 else Collected(h, 0)
  {
    FirstIs(s, f.id, k);
    Extend(h, f);
    CollectNext(h, f, 0);
    g := h + [f];
  }

  /** Id 95 completes and frees slot 5, which id 0 then takes. */
  lemma {:induction false} ZeroTakesFreedSlot(s: Slots, h: seq<Fragment>, b: byte) returns (g: seq<Fragment>)
    requires Runs(h) && After(h) == s && Collected(h, 0) == []
    requires forall i | 0 <= i < COUNT :: s[i] == Slot(COUNT - i, [b])
    ensures Runs(g) && After(g) == s[5 := Slot(0, [b])] && Collected(g, 0) == [b]
  {
    var h1 := FoundAt(h, s, 5, Fragment(95, 2, [b]));
    g := FoundAt(h1, s[5 := Slot(0, [])], 5, Fragment(0, 9, [b]));
    assert [] + [b] == [b];
  }

  /** Id 100 completes and frees slot 0, which id 0 then takes, too. */
  lemma {:induction false} ZeroTakesEarlierSlot(s: Slots, h: seq<Fragment>, b: byte, c: byte) returns (g: seq<Fragment>)
    requires Runs(h) && After(h) == s && Collected(h, 0) == [b]
    requires s[0] == Slot(COUNT, [b])
    ensures Runs(g) && Held(After(g), 0) == [c] && Collected(g, 0) == [b, c]
  {
    var h1 := FoundAt(h, s, 0, Fragment(COUNT, 2, [b]));
    g := FoundAt(h1, s[0 := Slot(0, [])], 0, Fragment(0, 9, [c]));
    FirstIs(After(g), 0, 0);
    assert [] + [c] == [c] && [b] + [c] == [b, c];
  }

  /** With 100 ids in flight, id 0 shares its mark with freed slots: its second fragment lands in
      another slot than its first, and the first is lost from view. */
  lemma {:induction false} ZeroLosesBytes(b: byte, c: byte) returns (h: seq<Fragment>)
    ensures Runs(h) && Held(After(h), 0) == [c] && Collected(h, 0) == [b, c]
  {
    var full := FillUp(COUNT, b);
    var split := ZeroTakesFreedSlot(After(full), full, b);
    h := ZeroTakesEarlierSlot(After(split), split, b, c);
  }

  /** Reassembly can be relied on in every run exactly for the ids other than 0. */
  lemma {:induction false} ReliableIff(id: int)
    ensures (forall h | Runs(h) :: Held(After(h), id) == Collected(h, id)) <==> id != 0
  {
    if id == 0 {
      var h := ZeroLosesBytes(0, 1);
      assert Runs(h) && Held(After(h), 0) != Collected(h, 0);
    } else {
      forall h | Runs(h)
        ensures Held(After(h), id) == Collected(h, id)
      {
        HeldIsCollected(h, id);
      }
    }
  }

  // ---------- in place ----------

  class CFrames {
    var cfrm: array<Slot>
    const version: nat

    constructor (version: nat)
      ensures cfrm.Length == COUNT && cfrm[..] == Empty() && fresh(cfrm) && this.version == version
    {
      this.version := version;
      cfrm := new Slot[COUNT](_ => Slot(0, []));
    }

    /** One cfrm packet. */
    method Add(id: int, wholeSize: int, payload: seq<byte>) returns (r: Outcome)
      requires cfrm.Length == COUNT
      requires version > 1 && wholeSize >= 0 ==> HasRoom(cfrm[..], id)
      modifies cfrm
      ensures version <= 1 ==> r == Rejected && cfrm[..] == old(cfrm[..])
      ensures version > 1 ==> cfrm[..] == Step(old(cfrm[..]), Fragment(id, wholeSize, payload)).0
      ensures version > 1 ==> r == Step(old(cfrm[..]), Fragment(id, wholeSize, payload)).1
    {
      if version <= 1 || wholeSize < 0 {
        return Rejected;
      }
      ghost var s: Slots := cfrm[..];
      var freeIndex := -1;
      var i := 0;
      while i < COUNT
        invariant 0 <= i <= COUNT && cfrm[..] == s
        invariant forall k | 0 <= k < i :: s[k].id != id
        invariant freeIndex == -1 || (0 <= freeIndex < i && s[freeIndex].data == [])
        invariant forall k | freeIndex < k < i :: s[k].data != []
      {
        if cfrm[i].id == id {
          break;
        }
        if |cfrm[i].data| == 0 {
          freeIndex := i;
        }
        i := i + 1;
      }
      if i >= COUNT {
        NoneWith(s, id);
        i := freeIndex;
        cfrm[i] := cfrm[i].(id := id);
      } else {
        FirstIs(s, id, i);
      }
      assert i == Target(s, id) && cfrm[..] == s[i := Slot(id, s[i].data)];
      if |payload| > UINT_MAX - |cfrm[i].data| - PADDING {
        return Rejected;
      }
      var held := cfrm[i].data + payload;
      cfrm[i] := cfrm[i].(data := held);
      if |held| >= wholeSize {
        cfrm[i] := Slot(0, []);
        r := Complete(held);
      } else {
        r := Waiting;
      }
    }
  }
}
