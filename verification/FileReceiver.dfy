/** The receiver that cuts a file into frames through a sliding buffer, and what a whole run of it
    emits. */
module FileReceiver {
  import opened Basics
  import opened Slices
  import opened StreamSplit

  /** Bytes in the receiver's own buffer; also the size of a pool buffer and the longest frame. */
  const BUFFER_SIZE: nat := 1024 * 1024

  // ---------- what one call and a whole run do ----------

  /** The part of the file the receiver holds. */
  datatype Window = Window(begin: nat, end: nat)

  /** The two ends of a run are process exits. */
  datatype Outcome = Emitted(segment: Segment, window: Window) | Passed | TooLong

  predicate InFile(s: seq<byte>, w: Window) {
    w.begin <= w.end <= |s| && w.end < w.begin + BUFFER_SIZE
  }

  /** A delimiter only counts when the window holds at least one byte after it. The window is topped
      up to its full size, or not at all. */
  function Receive(s: seq<byte>, w: Window): (r: Outcome)
    requires InFile(s, w)
    ensures r.Emitted? ==> InFile(s, r.window) && w.begin < r.window.begin
  {
    var d := FirstAt(AUD, s, w.begin);
    if d + 6 < w.end then
      Emitted(NextSegment(s, w.begin), Window(d + 6, w.end))
    else if |s| < w.begin + BUFFER_SIZE then
      Passed
    else if d + 6 < w.begin + BUFFER_SIZE then
      Emitted(NextSegment(s, w.begin), Window(d + 6, w.begin + BUFFER_SIZE))
    else
      TooLong
  }

  /** Everything emitted from window w on. */
  function Received(s: seq<byte>, w: Window): seq<Segment>
    requires InFile(s, w)
    decreases |s| - w.begin
  {
    var r := Receive(s, w);
    if r.Emitted? then [r.segment] + Received(s, r.window) else []
  }

  /** The window in which the receiver exits. */
  function LastWindow(s: seq<byte>, w: Window): (last: Window)
    requires InFile(s, w)
    ensures InFile(s, last) && !Receive(s, last).Emitted? && w.begin <= last.begin && w.end <= last.end
    decreases |s| - w.begin
  {
    var r := Receive(s, w);
    if r.Emitted? then LastWindow(s, r.window) else w
  }

  function Exit(s: seq<byte>): Outcome {
    Receive(s, LastWindow(s, Window(0, 0)))
  }

  /** An emission is the first segment of the reference split from here on. */
  lemma {:induction false} EmittedIsNext(s: seq<byte>, w: Window)
    requires InFile(s, w) && Receive(s, w).Emitted?
    ensures var r := Receive(s, w);
            && r.segment == NextSegment(s, w.begin) && r.segment.end == r.window.begin
            && w.begin == r.segment.begin <= r.segment.frame <= r.segment.end
            && FirstAt(AUD, s, w.begin) < |s|
            && Split(s, w.begin) == [r.segment] + Split(s, r.window.begin)
  {
    SegmentBounds(s, w.begin);
  }

  /** What is emitted is the start of the reference split. */
  lemma {:induction false} ReceivedIsPrefix(s: seq<byte>, w: Window)
    requires InFile(s, w)
    ensures Split(s, w.begin) == Received(s, w) + Split(s, LastWindow(s, w).begin)
    decreases |s| - w.begin
  {
    var r := Receive(s, w);
    if r.Emitted? {
      EmittedIsNext(s, w);
      ReceivedIsPrefix(s, r.window);
      Regroup(r.segment, Received(s, r.window), Split(s, LastWindow(s, r.window).begin));
    }
  }

  lemma {:induction false} Regroup(g: Segment, gs: seq<Segment>, rest: seq<Segment>)
    ensures [g] + (gs + rest) == ([g] + gs) + rest
  {
  }

  lemma {:induction false} ReceivedTiles(s: seq<byte>, w: Window)
    requires InFile(s, w)
    ensures Tiles(Received(s, w), w.begin, LastWindow(s, w).begin)
    decreases |s| - w.begin
  {
    var r := Receive(s, w);
    if r.Emitted? {
      EmittedIsNext(s, w);
      ReceivedTiles(s, r.window);
      TilesPrepend(r.segment, Received(s, r.window), LastWindow(s, r.window).begin);
    }
  }

  /** Nothing of the file is emitted twice, skipped or changed. */
  lemma {:induction false} ReceivedBytes(s: seq<byte>)
    ensures var gs := Received(s, Window(0, 0));
            && (forall i | 0 <= i < |gs| :: gs[i].begin <= gs[i].frame <= gs[i].end <= |s|)
            && Bytes(s, gs) == s[..LastWindow(s, Window(0, 0)).begin]
  {
    var w := Window(0, 0);
    ReceivedTiles(s, w);
    TilesBounds(Received(s, w), 0, LastWindow(s, w).begin);
    TilesAreBytes(s, Received(s, w), 0, LastWindow(s, w).begin);
  }

  /** Every frame fits a pool buffer with room to spare, so the check behind the scan never fires. */
  lemma {:induction false} FramesFit(s: seq<byte>, w: Window, i: nat)
    requires InFile(s, w) && i < |Received(s, w)|
    ensures var g := Received(s, w)[i]; g.frame + 6 <= g.end < g.begin + BUFFER_SIZE <= g.frame + BUFFER_SIZE
    decreases |s| - w.begin
  {
    var r := Receive(s, w);
    SegmentBounds(s, w.begin);
    if i > 0 {
      FramesFit(s, r.window, i - 1);
    }
  }

  /** A run gives up only on a whole megabyte of file, counted from the end of a segment, in which no
      delimiter ends early enough. */
  predicate Stretch(s: seq<byte>, from: nat)
    requires from <= |s|
  {
    from + BUFFER_SIZE <= |s| && from + BUFFER_SIZE <= FirstAt(AUD, s, from) + 6
  }

  /** Some place where a segment begins, or the rest after the last one, is such a stretch. */
  predicate HasStretch(s: seq<byte>, from: nat)
    requires from <= |s|
    decreases |s| - from
  {
    var d := FirstAt(AUD, s, from);
    Stretch(s, from) || (d < |s| && (AudHasHeader(s, d); HasStretch(s, d + 6)))
  }

  lemma {:induction false} NoStretchNearEnd(s: seq<byte>, from: nat)
    requires from <= |s| < from + BUFFER_SIZE
    ensures !HasStretch(s, from)
    decreases |s| - from
  {
    var d := FirstAt(AUD, s, from);
    if d < |s| {
      AudHasHeader(s, d);
      NoStretchNearEnd(s, d + 6);
    }
  }

  /** Where the reads happen to fall has no influence on how the run ends. */
  lemma {:induction false} TooLongFrom(s: seq<byte>, w: Window)
    requires InFile(s, w)
    ensures Receive(s, LastWindow(s, w)).TooLong? <==> HasStretch(s, w.begin)
    decreases |s| - w.begin
  {
    match Receive(s, w)
    case Emitted(_, next) => TooLongFrom(s, next);
    case Passed => NoStretchNearEnd(s, w.begin);
    case TooLong =>
  }

  lemma {:induction false} TooLongIff(s: seq<byte>)
    ensures Exit(s).TooLong? <==> HasStretch(s, 0)
    ensures Exit(s).Passed? <==> !HasStretch(s, 0)
  {
    TooLongFrom(s, Window(0, 0));
  }

  /** A run that passes has left less than a buffer behind, so any segment it did not emit began
      there. */
  lemma {:induction false} LossIsBounded(s: seq<byte>, i: nat)
    requires Exit(s).Passed? && |Received(s, Window(0, 0))| <= i < |Split(s, 0)|
    ensures |s| < Split(s, 0)[i].begin + BUFFER_SIZE
  {
    var w := Window(0, 0);
    var last := LastWindow(s, w);
    ReceivedIsPrefix(s, w);
    BeginsFrom(s, last.begin, i - |Received(s, w)|);
  }

  lemma {:induction false} BeginsFrom(s: seq<byte>, pos: nat, i: nat)
    requires pos <= |s| && i < |Split(s, pos)|
    ensures pos <= Split(s, pos)[i].begin
    decreases i
  {
    var d := FirstAt(AUD, s, pos);
    AudHasHeader(s, d);
    if i > 0 {
      BeginsFrom(s, d + 6, i - 1);
    }
  }

  /** Which segments a run emits: those that end before the last byte of its last successful read. The
      reads top the window up, each time to a full buffer counted from the end of a segment. */
  lemma {:induction false} EmittedIff(s: seq<byte>, i: nat)
    requires i < |Split(s, 0)|
    ensures i < |Received(s, Window(0, 0))| <==> Split(s, 0)[i].end < LastWindow(s, Window(0, 0)).end
  {
    EmittedFromIff(s, Window(0, 0), i);
  }

  lemma {:induction false} EmittedFromIff(s: seq<byte>, w: Window, i: nat)
    requires InFile(s, w) && i < |Split(s, w.begin)|
    ensures i < |Received(s, w)| <==> Split(s, w.begin)[i].end < LastWindow(s, w).end
    decreases |s| - w.begin
  {
    var r := Receive(s, w);
    if r.Emitted? {
      EmittedIsNext(s, w);
      if i > 0 {
        EmittedFromIff(s, r.window, i - 1);
      }
    } else {
      EndsFrom(s, w.begin, i);
    }
  }

  lemma {:induction false} EndsFrom(s: seq<byte>, pos: nat, i: nat)
    requires pos <= |s| && i < |Split(s, pos)|
    ensures FirstAt(AUD, s, pos) + 6 <= Split(s, pos)[i].end
    decreases i
  {
    var d := FirstAt(AUD, s, pos);
    AudHasHeader(s, d);
    if i > 0 {
      EndsFrom(s, d + 6, i - 1);
    }
  }

  /** The tail behind the last full read is dropped: a run passes without a single frame, delimiters
      or not, exactly on the files shorter than the buffer. */
  lemma {:induction false} PassesWithoutFramesIff(s: seq<byte>)
    ensures Exit(s).Passed? && Received(s, Window(0, 0)) == [] <==> |s| < BUFFER_SIZE
  {
  }

  /** A buffer of the pool. */
  class JBuffer {
    const data: array<byte>
    var filledLen: nat
    var offset: nat

    constructor (size: nat)
      ensures fresh(data) && data.Length == size && filledLen == 0
    {
      data := new byte[size](_ => 0);
      filledLen, offset := 0, 0;
    }
  }

  /** How a call ends: with a frame in the buffer, or with one of the two exits. A trip of its loop
      may also end with the window topped up and nothing found in it yet. */
  datatype Status = Got | Again | ExitPassed | ExitTooLong

  class FileReceiver {
    const file: seq<byte>
    const tmpBuffer: array<byte>
    var filePos: nat
    var filledSize: nat
    var foundBegin: nat
    var foundEnd: nat
    ghost var readCount: nat

    constructor (file: seq<byte>)
      ensures Ready() && fresh(tmpBuffer) && this.file == file && Shown() == Window(0, 0)
    {
      this.file := file;
      tmpBuffer := new byte[BUFFER_SIZE](_ => 0);
      filePos, filledSize, foundBegin, foundEnd, readCount := 0, 0, 0, 0, 0;
    }

    ghost predicate Valid()
      reads this, tmpBuffer
    {
      && tmpBuffer.Length == BUFFER_SIZE && filledSize <= BUFFER_SIZE
      && filledSize <= filePos <= |file|
      && Shows(tmpBuffer[..filledSize], file, filePos - filledSize)
    }

    function Shown(): Window
      requires filledSize <= filePos
      reads this
    {
      Window(filePos - filledSize, filePos)
    }

    /** The state between two calls. */
    ghost predicate Ready()
      reads this, tmpBuffer
    {
      Valid() && filledSize < BUFFER_SIZE && foundBegin == foundEnd == 0
    }

    /** One of the two scans: the first match that starts before limit, or limit. */
    method Find(pattern: seq<byte>, limit: nat, ghost window: seq<byte>) returns (i: nat)
      requires Valid() && limit + |pattern| <= filledSize && window == tmpBuffer[..filledSize]
      ensures i <= limit && (i < limit ==> IsAt(pattern, window, i))
      ensures forall k | 0 <= k < i :: !IsAt(pattern, window, k)
    {
      i := 0;
      while i < limit && tmpBuffer[i..i + |pattern|] != pattern
        invariant 0 <= i <= limit
        invariant forall k | 0 <= k < i :: !IsAt(pattern, window, k)
      {
        assert window[i..i + |pattern|] == tmpBuffer[i..i + |pattern|];
        IsAtIsSlice(pattern, window, i);
        i := i + 1;
      }
      if i < limit {
        assert window[i..i + |pattern|] == tmpBuffer[i..i + |pattern|];
        IsAtIsSlice(pattern, window, i);
      }
    }

    /** The end of the next frame in the buffer, if the window shows the first delimiter and at least
        one byte after it. */
    method FindEnd() returns (found: bool, end: nat)
      requires Valid()
      ensures var w := Shown();
              var d := FirstAt(AUD, file, w.begin);
              found == (d + 6 < w.end) && (found ==> end == d + 6 - w.begin)
    {
      if filledSize <= 6 {
        return false, 0;
      }
      ghost var window := tmpBuffer[..filledSize];
      var i := Find(AUD, filledSize - 6, window);
      DelimiterInWindow(window, file, filePos - filledSize, i);
      return i != filledSize - 6, i + 6;
    }

    /** Where that frame begins. */
    method FindBegin(end: nat) returns (begin: nat)
      requires Valid() && 6 <= end < filledSize && Shown().begin + end == FirstAt(AUD, file, Shown().begin) + 6
      ensures Shown().begin + begin == FirstAt(HEADER, file, Shown().begin)
    {
      ghost var window := tmpBuffer[..filledSize];
      begin := Find(HEADER, end - 4, window);
      HeaderInWindow(window, file, filePos - filledSize, end - 6, begin);
    }

    /** Both scans; on success the bounds of the frame are left in the object. */
    method GetOneFrameStream() returns (found: bool)
      requires Valid() && foundBegin == foundEnd == 0
      modifies this`foundBegin, this`foundEnd
      ensures Valid()
      ensures var w := Shown();
              var d := FirstAt(AUD, file, w.begin);
              && found == (d + 6 < w.end)
              && (found ==> foundEnd == d + 6 - w.begin && foundBegin == FirstAt(HEADER, file, w.begin) - w.begin)
              && (!found ==> foundBegin == foundEnd == 0)
    {
      var end;
      found, end := FindEnd();
      if found {
        var begin := FindBegin(end);
        foundBegin, foundEnd := begin, end;
      }
    }

    /** Tops the buffer up; a short read leaves the fill as it was and loses what it did read. */
    method ReadStreamFromFile() returns (ok: bool)
      requires Valid()
      modifies this`filePos, this`filledSize, this`readCount, tmpBuffer
      ensures readCount == old(readCount) + 1
      ensures ok == (old(Shown().begin) + BUFFER_SIZE <= |file|)
      ensures ok ==> Valid() && Shown() == Window(old(Shown().begin), old(Shown().begin) + BUFFER_SIZE)
      ensures !ok ==> filePos == |file| && filledSize == old(filledSize)
    {
      readCount := readCount + 1;
      var readSize := BUFFER_SIZE - filledSize;
      var ret := if |file| - filePos < readSize then |file| - filePos else readSize;
      ghost var held, begin := tmpBuffer[..filledSize], filePos - filledSize;
      Fread(ret);
      if ret != readSize {
        return false;
      }
      ShowsMore(held, file, begin, ret);
      filledSize := filledSize + ret;
      return true;
    }

    /** fread behind what is held. */
    method Fread(n: nat)
      requires filledSize + n <= tmpBuffer.Length && filePos + n <= |file|
      modifies this`filePos, tmpBuffer
      ensures filePos == old(filePos) + n
      ensures tmpBuffer[..filledSize + n] == old(tmpBuffer[..filledSize]) + file[old(filePos)..filePos]
    {
      var from, at := filePos, filledSize;
      forall k | 0 <= k < n {
        tmpBuffer[at + k] := file[from + k];
      }
      filePos := filePos + n;
    }

    /** Copies the frame just found into a pool buffer. */
    method FillStreamBuffer(buffer: JBuffer)
      requires Valid() && foundBegin <= foundEnd <= filledSize
      requires foundEnd - foundBegin <= buffer.data.Length && buffer.data != tmpBuffer
      modifies buffer, buffer.data
      ensures buffer.filledLen == foundEnd - foundBegin && buffer.offset == 0
      ensures buffer.data[..buffer.filledLen] == file[Shown().begin + foundBegin..Shown().begin + foundEnd]
    {
      ghost var window := tmpBuffer[..filledSize];
      SliceOfSlice(file, filePos - filledSize, filePos, foundBegin, foundEnd);
      buffer.filledLen := foundEnd - foundBegin;
      buffer.offset := 0;
      forall k | 0 <= k < foundEnd - foundBegin {
        buffer.data[k] := tmpBuffer[foundBegin + k];
      }
      assert buffer.data[..buffer.filledLen] == window[foundBegin..foundEnd];
    }

    /** memmove to the front of the buffer: the two ranges may overlap. */
    method Memmove(start: nat, n: nat)
      requires start + n <= tmpBuffer.Length
      modifies tmpBuffer
      ensures tmpBuffer[..n] == old(tmpBuffer[start..start + n])
    {
      forall k | 0 <= k < n {
        tmpBuffer[k] := tmpBuffer[start + k];
      }
    }

    /** Drops everything up to the end of the frame. */
    method MoveTmpBuffer()
      requires Valid() && foundEnd <= filledSize
      modifies this`filledSize, this`foundBegin, this`foundEnd, tmpBuffer
      ensures Valid() && foundBegin == foundEnd == 0
      ensures Shown() == Window(old(Shown().begin + foundEnd), old(Shown().end))
    {
      ghost var window, pos := tmpBuffer[..filledSize], filePos - filledSize;
      var start, left := foundEnd, filledSize - foundEnd;
      Memmove(start, left);
      ShowsRest(window, file, pos, start);
      filledSize := left;
      foundBegin, foundEnd := 0, 0;
    }

    /** Copies the frame just found out of the window, and moves the window behind it. */
    method TakeFrame(buffer: JBuffer, ghost g: Segment)
      requires Valid() && buffer.data.Length == BUFFER_SIZE && buffer.data != tmpBuffer
      requires foundBegin <= foundEnd <= filledSize && foundEnd - foundBegin < BUFFER_SIZE && 0 < foundEnd
      requires g == Segment(Shown().begin, Shown().begin + foundBegin, Shown().begin + foundEnd)
      modifies this`filledSize, this`foundBegin, this`foundEnd, tmpBuffer, buffer, buffer.data
      ensures Ready() && Shown() == Window(g.end, old(Shown().end))
      ensures buffer.filledLen == g.end - g.frame <= buffer.data.Length
      ensures buffer.data[..buffer.filledLen] == FrameOf(file, g)
    {
      FillStreamBuffer(buffer);
      MoveTmpBuffer();
    }

    /** One trip of the loop in RecvStream, up to the point where a frame is found. */
    method FindOrRead() returns (status: Status)
      requires Valid() && foundBegin == foundEnd == 0
      modifies this`filePos, this`filledSize, this`foundBegin, this`foundEnd, this`readCount, tmpBuffer
      ensures var begin, end := old(Shown().begin), old(Shown().end);
              var d := FirstAt(AUD, file, begin);
              match status
              case Got =>
                && Valid() && Shown().begin == begin
                && foundEnd == d + 6 - begin && foundBegin == FirstAt(HEADER, file, begin) - begin
                && d + 6 < Shown().end
                && (if d + 6 < end then Shown().end == end && readCount == old(readCount)
                    else end == begin && Shown().end == begin + BUFFER_SIZE && readCount == old(readCount) + 1)
              case Again =>
                && Valid() && foundBegin == foundEnd == 0 && filledSize == BUFFER_SIZE
                && end < begin + BUFFER_SIZE && Shown() == Window(begin, begin + BUFFER_SIZE) && end <= d + 6
                && readCount == old(readCount) + 1
              case ExitPassed =>
                end <= d + 6 && |file| < begin + BUFFER_SIZE && readCount == old(readCount) + 1
              case ExitTooLong =>
                && begin + BUFFER_SIZE <= |file| && begin + BUFFER_SIZE <= d + 6
                && readCount == old(readCount) + (if end == begin then 1 else 0)
    {
      if filledSize == 0 {
        var ok := ReadStreamFromFile();
        if !ok {
          return ExitPassed;
        }
      }
      var found := GetOneFrameStream();
      if found {
        return Got;
      }
      if filledSize >= BUFFER_SIZE {
        return ExitTooLong;
      }
      var ok := ReadStreamFromFile();
      return if ok then Again else ExitPassed;
    }

    /** One call. It needs at most one read of the file, and the length check in front of the copy
        never fires. */
    method RecvStream(buffer: JBuffer) returns (status: Status)
      requires Ready() && buffer.data.Length == BUFFER_SIZE && buffer.data != tmpBuffer
      modifies this, tmpBuffer, buffer, buffer.data
      ensures old(readCount) <= readCount <= old(readCount) + 1
      ensures match Receive(file, old(Shown()))
              case Emitted(g, w) =>
                && status == Got && Ready() && Shown() == w
                && g.frame <= g.end <= |file| && buffer.filledLen == g.end - g.frame <= buffer.data.Length
                && buffer.data[..buffer.filledLen] == FrameOf(file, g)
              case Passed => status == ExitPassed
              case TooLong => status == ExitTooLong
    {
      ghost var w := Shown();
      while true
        invariant Valid() && foundBegin == foundEnd == 0 && Shown().begin == w.begin
        invariant if filledSize < BUFFER_SIZE then Shown() == w && readCount == old(readCount)
                  else readCount == old(readCount) + 1 && w.end <= FirstAt(AUD, file, w.begin) + 6
        decreases BUFFER_SIZE - filledSize
      {
        status := FindOrRead();
        if status == Again {
          continue;
        }
        if status != Got {
          return;
        }
        SegmentBounds(file, w.begin);
        if foundEnd - foundBegin >= BUFFER_SIZE {
          assert false; // never so long: the exit behind this test is dead
        }
        TakeFrame(buffer, NextSegment(file, w.begin));
        return;
      }
    }
  }
}
