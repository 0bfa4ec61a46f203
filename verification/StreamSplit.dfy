/** How an H.264 byte stream (ITU-T H.264, Annex B, section B.1) is split into frames: each segment
    ends with an access unit delimiter (section 7.3.2.4), and its frame starts at the first start
    code in it. */
module StreamSplit {
  import opened Basics

  /** A start code with an access unit delimiter behind it. */
  const AUD: seq<byte> := [0x00, 0x00, 0x00, 0x01, 0x09, 0x10]
  const HEADER: seq<byte> := [0x00, 0x00, 0x00, 0x01]

  predicate IsAt(pattern: seq<byte>, s: seq<byte>, i: nat) {
    i + |pattern| <= |s| && forall k {:trigger pattern[k]} | 0 <= k < |pattern| :: s[i + k] == pattern[k]
  }

  lemma {:induction false} IsAtIsSlice(pattern: seq<byte>, s: seq<byte>, i: nat)
    requires i + |pattern| <= |s|
    ensures IsAt(pattern, s, i) <==> s[i..i + |pattern|] == pattern
  {
    var slice := s[i..i + |pattern|];
    if IsAt(pattern, s, i) {
      forall k | 0 <= k < |pattern|
        ensures slice[k] == pattern[k]
      {
        assert slice[k] == s[i + k];
      }
    } else {
      var k :| 0 <= k < |pattern| && s[i + k] != pattern[k];
      assert slice[k] == s[i + k];
    }
  }

  /** The first place of the pattern at or after `from`; |s| when there is none. */
  function FirstAt(pattern: seq<byte>, s: seq<byte>, from: nat): (r: nat)
    requires from <= |s| && pattern != []
    ensures from <= r <= |s| && (r < |s| ==> IsAt(pattern, s, r))
    decreases |s| - from
  {
    if from == |s| || IsAt(pattern, s, from) then from else FirstAt(pattern, s, from + 1)
  }

  lemma {:induction false} NoneBefore(pattern: seq<byte>, s: seq<byte>, from: nat, i: nat)
    requires pattern != [] && from <= i && from <= |s|
    ensures i < FirstAt(pattern, s, from) ==> !IsAt(pattern, s, i)
    ensures i <= |s| && IsAt(pattern, s, i) ==> FirstAt(pattern, s, from) <= i
    decreases |s| - from
  {
    if from < |s| && from < i {
      NoneBefore(pattern, s, from + 1, i);
    }
  }

  /** One segment: garbage from begin to frame, the frame from there to end. */
  datatype Segment = Segment(begin: nat, frame: nat, end: nat)

  lemma {:induction false} AudHasHeader(s: seq<byte>, i: nat)
    requires IsAt(AUD, s, i)
    ensures IsAt(HEADER, s, i) && i + 6 <= |s|
  {
    forall k | 0 <= k < 4
      ensures s[i + k] == HEADER[k]
    {
      assert s[i + k] == AUD[k];
    }
  }

  /** The segment that starts at pos, if a delimiter follows. */
  function NextSegment(s: seq<byte>, pos: nat): Segment
    requires pos <= |s| && FirstAt(AUD, s, pos) < |s|
  {
    Segment(pos, FirstAt(HEADER, s, pos), FirstAt(AUD, s, pos) + 6)
  }

  function Split(s: seq<byte>, pos: nat): seq<Segment>
    requires pos <= |s|
    decreases |s| - pos
  {
    var d := FirstAt(AUD, s, pos);
    if d == |s| then []
    else
      AudHasHeader(s, d);
      [NextSegment(s, pos)] + Split(s, d + 6)
  }

  function FrameOf(s: seq<byte>, g: Segment): seq<byte>
    requires g.frame <= g.end <= |s|
  {
    s[g.frame..g.end]
  }

  lemma {:induction false} SegmentBounds(s: seq<byte>, pos: nat)
    requires pos <= |s| && FirstAt(AUD, s, pos) < |s|
    ensures var g := NextSegment(s, pos); pos <= g.frame <= g.end - 6 && g.end <= |s|
    ensures IsAt(HEADER, s, FirstAt(HEADER, s, pos))
  {
    var d := FirstAt(AUD, s, pos);
    AudHasHeader(s, d);
    NoneBefore(HEADER, s, pos, d);
  }

  /** A frame is never shorter than the delimiter that ends it, starts with the first start code of
      its segment, and holds a delimiter at its end and nowhere else. */
  lemma {:induction false} SegmentShape(s: seq<byte>, pos: nat)
    requires pos <= |s| && FirstAt(AUD, s, pos) < |s|
    ensures var g := NextSegment(s, pos);
            && pos <= g.frame <= g.end - 6 && g.end <= |s|
            && IsAt(HEADER, FrameOf(s, g), 0)
            && (forall k | pos <= k < g.frame :: !IsAt(HEADER, s, k))
            && (forall k: nat :: IsAt(AUD, FrameOf(s, g), k) <==> k == |FrameOf(s, g)| - 6)
  {
    var g := NextSegment(s, pos);
    SegmentBounds(s, pos);
    var frame := FrameOf(s, g);
    WindowAt(HEADER, frame, s, g.frame, 0);
    forall k | pos <= k < g.frame
      ensures !IsAt(HEADER, s, k)
    {
      NoneBefore(HEADER, s, pos, k);
    }
    forall k: nat
      ensures IsAt(AUD, frame, k) <==> k == |frame| - 6
    {
      if k + 6 <= |frame| {
        WindowAt(AUD, frame, s, g.frame, k);
        NoneBefore(AUD, s, pos, g.frame + k);
      }
    }
  }

  /** Segments tile the stream: the garbage and the frames together are all of it up to the end of
      the last one. */
  ghost predicate Tiles(gs: seq<Segment>, from: nat, to: nat) {
    if gs == [] then from == to
    else gs[0].begin == from && gs[0].begin <= gs[0].frame <= gs[0].end <= to && Tiles(gs[1..], gs[0].end, to)
  }

  function Bytes(s: seq<byte>, gs: seq<Segment>): seq<byte>
    requires forall i | 0 <= i < |gs| :: gs[i].begin <= gs[i].frame <= gs[i].end <= |s|
  {
    if gs == [] then []
    else s[gs[0].begin..gs[0].frame] + FrameOf(s, gs[0]) + Bytes(s, gs[1..])
  }

  lemma {:induction false} TilesBounds(gs: seq<Segment>, from: nat, to: nat)
    requires Tiles(gs, from, to)
    ensures from <= to
    ensures forall i | 0 <= i < |gs| :: gs[i].begin <= gs[i].frame <= gs[i].end <= to
    decreases gs
  {
    if gs != [] {
      TilesBounds(gs[1..], gs[0].end, to);
      assert forall i | 1 <= i < |gs| :: gs[i] == gs[1..][i - 1];
    }
  }

  /** Garbage and frames concatenate to exactly the bytes they were taken from. */
  lemma {:induction false} TilesAreBytes(s: seq<byte>, gs: seq<Segment>, from: nat, to: nat)
    requires Tiles(gs, from, to) && to <= |s|
    requires forall i | 0 <= i < |gs| :: gs[i].begin <= gs[i].frame <= gs[i].end <= |s|
    ensures from <= to && Bytes(s, gs) == s[from..to]
    decreases gs
  {
    TilesBounds(gs, from, to);
    if gs != [] {
      assert forall i | 0 <= i < |gs[1..]| :: gs[1..][i] == gs[i + 1];
      TilesBounds(gs[1..], gs[0].end, to);
      TilesAreBytes(s, gs[1..], gs[0].end, to);
      assert s[from..to] == s[from..gs[0].frame] + s[gs[0].frame..gs[0].end] + s[gs[0].end..to];
    }
  }

  lemma {:induction false} TilesPrepend(g: Segment, gs: seq<Segment>, to: nat)
    requires Tiles(gs, g.end, to) && g.begin <= g.frame <= g.end
    ensures Tiles([g] + gs, g.begin, to)
  {
    TilesBounds(gs, g.end, to);
    assert ([g] + gs)[1..] == gs;
  }

  lemma {:induction false} TilesAppend(gs: seq<Segment>, from: nat, to: nat, g: Segment)
    requires Tiles(gs, from, to) && g.begin == to && g.begin <= g.frame <= g.end
    ensures Tiles(gs + [g], from, g.end)
    decreases gs
  {
    if gs != [] {
      TilesAppend(gs[1..], gs[0].end, to, g);
      assert (gs + [g])[1..] == gs[1..] + [g];
    } else {
      assert (gs + [g])[1..] == [];
    }
  }

  // ---------- seeing the stream through a window ----------

  /** The window shows the bytes of s from pos on. */
  ghost predicate Shows(window: seq<byte>, s: seq<byte>, pos: nat) {
    pos + |window| <= |s| && forall k {:trigger window[k]} | 0 <= k < |window| :: window[k] == s[pos + k]
  }

  lemma {:induction false} WindowAt(pattern: seq<byte>, window: seq<byte>, s: seq<byte>, pos: nat, i: nat)
    requires Shows(window, s, pos) && i + |pattern| <= |window|
    ensures IsAt(pattern, window, i) <==> IsAt(pattern, s, pos + i)
  {
    assert forall k {:trigger pattern[k]} | 0 <= k < |pattern| :: window[i + k] == s[pos + i + k];
  }

  lemma {:induction false} ShowsRest(window: seq<byte>, s: seq<byte>, pos: nat, n: nat)
    requires Shows(window, s, pos) && n <= |window|
    ensures Shows(window[n..], s, pos + n)
  {
  }

  lemma {:induction false} ShowsMore(window: seq<byte>, s: seq<byte>, pos: nat, n: nat)
    requires Shows(window, s, pos) && pos + |window| + n <= |s|
    ensures Shows(window + s[pos + |window|..pos + |window| + n], s, pos)
  {
  }

  /** The first match in the window is the first match in the stream. */
  lemma {:induction false} WindowFirst(pattern: seq<byte>, window: seq<byte>, s: seq<byte>, pos: nat, i: nat)
    requires Shows(window, s, pos) && pattern != [] && i + |pattern| <= |window|
    requires IsAt(pattern, window, i) && forall k | 0 <= k < i :: !IsAt(pattern, window, k)
    ensures FirstAt(pattern, s, pos) == pos + i
  {
    WindowAt(pattern, window, s, pos, i);
    NoneBefore(pattern, s, pos, pos + i);
    var d := FirstAt(pattern, s, pos);
    if d < pos + i {
      WindowAt(pattern, window, s, pos, d - pos);
    }
  }

  /** What a scan for delimiters that stops one byte short of the end of the window finds out. */
  lemma {:induction false} DelimiterInWindow(window: seq<byte>, s: seq<byte>, pos: nat, i: nat)
    requires Shows(window, s, pos) && i + 6 <= |window|
    requires forall k | 0 <= k < i :: !IsAt(AUD, window, k)
    requires i + 6 < |window| ==> IsAt(AUD, window, i)
    ensures i + 6 < |window| <==> FirstAt(AUD, s, pos) + 6 < pos + |window|
    ensures i + 6 < |window| ==> FirstAt(AUD, s, pos) == pos + i
  {
    if i + 6 < |window| {
      WindowFirst(AUD, window, s, pos, i);
    } else {
      var d := FirstAt(AUD, s, pos);
      if d + 6 < pos + |window| {
        WindowAt(AUD, window, s, pos, d - pos);
        assert false;
      }
    }
  }

  /** What the scan for the start of the frame finds out, once the delimiter is found at i. */
  lemma {:induction false} HeaderInWindow(window: seq<byte>, s: seq<byte>, pos: nat, i: nat, j: nat)
    requires Shows(window, s, pos) && i + 6 < |window| && FirstAt(AUD, s, pos) == pos + i
    requires forall k | 0 <= k < j :: !IsAt(HEADER, window, k)
    requires j <= i + 2 && (j < i + 2 ==> IsAt(HEADER, window, j))
    ensures j <= i && FirstAt(HEADER, s, pos) == pos + j
  {
    WindowAt(AUD, window, s, pos, i);
    AudHasHeader(window, i);
    WindowFirst(HEADER, window, s, pos, j);
  }
}
