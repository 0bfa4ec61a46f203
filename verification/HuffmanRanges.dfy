/** The first half of read_huffman_tables: the frequency table arrives as ranges of byte values. */
module HuffmanRanges {
  import opened Basics
  import opened HuffmanForest
  import opened HuffmanTables
  import opened HuffmanVlc
  import opened HuffmanBits

  /** Bytes that the caller guarantees to be readable after the end of the data. */
  const PADDING := 64

  datatype Parsed = Invalid | Parsed(w: Weights, next: nat)

  function Span(start: int, end: int): nat {
    if end < start then 0 else end - start + 1
  }

  /** The frequencies of one range, written over the table from index start on. */
  function Overlay(w: Weights, start: nat, freqs: seq<byte>): (v: Weights)
    requires start + |freqs| <= 256
    ensures forall i | 0 <= i < NODES :: v[i] == if start <= i < start + |freqs| then freqs[i - start] else w[i]
  {
    seq(NODES, i requires 0 <= i < NODES => if start <= i < start + |freqs| then freqs[i - start] else w[i])
  }

  function Align4(n: nat): (r: nat)
    ensures r % 4 == 0 && n <= r < n + 4
  {
    if n % 4 == 0 then n else n + 4 - n % 4
  }

  /** What the range loop and the alignment after it do with the bytes from pos on. */
  function Ranges(buf: seq<byte>, size: nat, pos: nat, start: byte, end: byte, w: Weights): (r: Parsed)
    requires size + PADDING <= |buf|
    decreases |buf| - pos
  {
    var n := Span(start, end);
    if size - pos < n + 1 then Invalid
    else
      var v := Overlay(w, start, buf[pos..pos + n]);
      if buf[pos + n] == 0 then
        var next := Align4(pos + n + 1);
        if next > size then Invalid else Parsed(v[256 := 1], next)
      else Ranges(buf, size, pos + n + 2, buf[pos + n], buf[pos + n + 1], v)
  }

  function Empty(): Weights {
    seq(NODES, _ => 0)
  }

  function Parse(buf: seq<byte>, size: nat): Parsed
    requires size + PADDING <= |buf|
  {
    Ranges(buf, size, 2, buf[0], buf[1], Empty())
  }

  /** A parsed table meets the conditions under which codes are built from it, whatever the bytes. */
  lemma {:induction false} ParsedIsFrequencies(buf: seq<byte>, size: nat, pos: nat, start: byte, end: byte, w: Weights)
    requires size + PADDING <= |buf|
    requires forall i | 0 <= i < NODES :: if i < 256 then w[i] < 256 else w[i] == 0
    ensures Ranges(buf, size, pos, start, end, w).Parsed? ==>
              && Frequencies(Ranges(buf, size, pos, start, end, w).w)
              && Ranges(buf, size, pos, start, end, w).next <= size
    decreases |buf| - pos
  {
    var n := Span(start, end);
    if size - pos >= n + 1 && buf[pos + n] != 0 {
      ParsedIsFrequencies(buf, size, pos + n + 2, buf[pos + n], buf[pos + n + 1],
                          Overlay(w, start, buf[pos..pos + n]));
    }
  }

  // ---------- writing ranges ----------

  /** One range as the format has it; end < start makes an empty one. */
  datatype Range = Range(start: byte, end: byte, freqs: seq<byte>) {
    predicate Valid() {
      |freqs| == Span(start, end)
    }
  }

  ghost predicate Writable(rs: seq<Range>) {
    && |rs| > 0
    && (forall i | 0 <= i < |rs| :: rs[i].Valid())
    && (forall i | 0 < i < |rs| :: rs[i].start != 0)
  }

  function Write(rs: seq<Range>): seq<byte> {
    if rs == [] then [0] else [rs[0].start, rs[0].end] + rs[0].freqs + Write(rs[1..])
  }

  function OverlayAll(w: Weights, rs: seq<Range>): Weights
    requires forall i | 0 <= i < |rs| :: rs[i].Valid()
    decreases |rs|
  {
    if |rs| == 0 then w
    else
      var r := rs[0];
      assert r.Valid();
      OverlayAll(Overlay(w, r.start, r.freqs), rs[1..])
  }

  function WrittenSize(rs: seq<Range>): nat {
    if rs == [] then 1 else 2 + |rs[0].freqs| + WrittenSize(rs[1..])
  }

  /** The written ranges stand in the buffer from pos on, field by field. */
  ghost predicate WrittenAt(rs: seq<Range>, buf: seq<byte>, pos: nat)
    decreases rs
  {
    if rs == [] then pos < |buf| && buf[pos] == 0
    else
      var after := pos + 2 + |rs[0].freqs|;
      && after <= |buf| && buf[pos] == rs[0].start && buf[pos + 1] == rs[0].end
      && buf[pos + 2..after] == rs[0].freqs && WrittenAt(rs[1..], buf, after)
  }

  lemma {:induction false} Fields(buf: seq<byte>, pos: nat, start: byte, end: byte, freqs: seq<byte>, rest: seq<byte>)
    requires pos + 2 + |freqs| + |rest| <= |buf|
    requires buf[pos..pos + 2 + |freqs| + |rest|] == [start, end] + freqs + rest
    ensures buf[pos] == start && buf[pos + 1] == end
    ensures buf[pos + 2..pos + 2 + |freqs|] == freqs
    ensures buf[pos + 2 + |freqs|..pos + 2 + |freqs| + |rest|] == rest
  {
    var all := [start, end] + freqs + rest;
    assert all[0] == start && all[1] == end;
    assert forall k | 0 <= k < |all| :: buf[pos + k] == all[k] by {
      assert forall k | 0 <= k < |all| :: buf[pos..pos + |all|][k] == all[k];
    }
    forall k | 0 <= k < |freqs|
      ensures buf[pos + 2 + k] == freqs[k]
    {
      assert all[2 + k] == freqs[k];
    }
    forall k | 0 <= k < |rest|
      ensures buf[pos + 2 + |freqs| + k] == rest[k]
    {
      assert all[2 + |freqs| + k] == rest[k];
    }
  }

  lemma {:induction false} WrittenIsWrittenAt(rs: seq<Range>, buf: seq<byte>, pos: nat)
    requires pos + |Write(rs)| <= |buf| && buf[pos..pos + |Write(rs)|] == Write(rs)
    ensures WrittenAt(rs, buf, pos) && |Write(rs)| == WrittenSize(rs)
    decreases rs
  {
    if rs == [] {
      assert buf[pos..pos + 1][0] == buf[pos];
    } else {
      var r, rest := rs[0], Write(rs[1..]);
      assert |Write(rs)| == 2 + |r.freqs| + |rest|;
      Fields(buf, pos, r.start, r.end, r.freqs, rest);
      WrittenIsWrittenAt(rs[1..], buf, pos + 2 + |r.freqs|);
    }
  }

  /** Reading back written ranges gives the table they describe: later ranges win over earlier ones. */
  lemma {:induction false} RoundTrip(rs: seq<Range>, buf: seq<byte>, size: nat)
    requires Writable(rs) && size + PADDING <= |buf|
    requires Write(rs) <= buf && Align4(|Write(rs)|) <= size
    ensures Parse(buf, size) == Parsed(OverlayAll(Empty(), rs)[256 := 1], Align4(|Write(rs)|))
  {
    assert buf[0..0 + |Write(rs)|] == Write(rs);
    WrittenIsWrittenAt(rs, buf, 0);
    ReadBack(0, rs, buf, size, Empty());
  }

  lemma {:induction false} WritableTail(rs: seq<Range>)
    requires Writable(rs) && |rs| > 1
    ensures Writable(rs[1..]) && rs[1].start != 0 && rs[1..][0] == rs[1]
  {
    assert forall i | 0 <= i < |rs[1..]| :: rs[1..][i] == rs[i + 1];
  }

  /** One step of the range loop where the bytes of the range are known. */
  lemma {:induction false} RangesStep(buf: seq<byte>, size: nat, pos: nat, r: Range, w: Weights)
    requires size + PADDING <= |buf| && r.Valid() && pos + |r.freqs| + 1 <= size
    requires buf[pos..pos + |r.freqs|] == r.freqs
    ensures var at := pos + |r.freqs|;
            var v := Overlay(w, r.start, r.freqs);
            Ranges(buf, size, pos, r.start, r.end, w)
            == if buf[at] != 0 then Ranges(buf, size, at + 2, buf[at], buf[at + 1], v)
               else if Align4(at + 1) <= size then Parsed(v[256 := 1], Align4(at + 1)) else Invalid
  {
  }

  lemma {:induction false} FirstRange(pos: nat, rs: seq<Range>, buf: seq<byte>, size: nat, w: Weights)
    requires Writable(rs) && size + PADDING <= |buf|
    requires WrittenAt(rs, buf, pos) && Align4(pos + WrittenSize(rs)) <= size
    ensures var r, after, v := rs[0], pos + 2 + |rs[0].freqs|, Overlay(w, rs[0].start, rs[0].freqs);
            && WrittenAt(rs[1..], buf, after) && pos + WrittenSize(rs) == after + WrittenSize(rs[1..])
            && Ranges(buf, size, pos + 2, r.start, r.end, w)
               == if |rs| == 1 then Parsed(v[256 := 1], Align4(pos + WrittenSize(rs)))
                  else Ranges(buf, size, after + 2, rs[1].start, rs[1].end, v)
  {
    RangesStep(buf, size, pos + 2, rs[0], w);
  }

  lemma {:induction false} ReadBack(pos: nat, rs: seq<Range>, buf: seq<byte>, size: nat, w: Weights)
    requires Writable(rs) && size + PADDING <= |buf|
    requires WrittenAt(rs, buf, pos) && Align4(pos + WrittenSize(rs)) <= size
    ensures Ranges(buf, size, pos + 2, rs[0].start, rs[0].end, w)
            == Parsed(OverlayAll(w, rs)[256 := 1], Align4(pos + WrittenSize(rs)))
    decreases |rs|
  {
    FirstRange(pos, rs, buf, size, w);
    if |rs| > 1 {
      WritableTail(rs);
      ReadBack(pos + 2 + |rs[0].freqs|, rs[1..], buf, size, Overlay(w, rs[0].start, rs[0].freqs));
    }
  }

  // ---------- what can be read was written ----------

  /** r stands at `at`, with bytes behind it. */
  ghost predicate RangeAt(r: Range, buf: seq<byte>, at: nat) {
    && r.Valid() && at + 2 + |r.freqs| < |buf| && buf[at] == r.start && buf[at + 1] == r.end
    && buf[at + 2..at + 2 + |r.freqs|] == r.freqs
  }

  lemma {:induction false} RangeParsed(buf: seq<byte>, size: nat, at: nat, w: Weights) returns (r: Range, next: nat, v: Weights)
    requires size + PADDING <= |buf| && at + 2 <= |buf| && Ranges(buf, size, at + 2, buf[at], buf[at + 1], w).Parsed?
    ensures RangeAt(r, buf, at) && next == at + 2 + |r.freqs| && next + 1 <= size
    ensures if buf[next] == 0 then Align4(next + 1) <= size
            else Ranges(buf, size, next + 2, buf[next], buf[next + 1], v).Parsed?
  {
    next := at + 2 + Span(buf[at], buf[at + 1]);
    r := Range(buf[at], buf[at + 1], buf[at + 2..next]);
    v := Overlay(w, r.start, r.freqs);
  }

  /** One more range in front. */
  lemma {:induction false} RangeInFront(r: Range, rs: seq<Range>, buf: seq<byte>, at: nat)
    requires RangeAt(r, buf, at) && (rs == [] || (Writable(rs) && rs[0].start != 0))
    requires WrittenAt(rs, buf, at + 2 + |r.freqs|)
    ensures Writable([r] + rs) && WrittenAt([r] + rs, buf, at)
    ensures WrittenSize([r] + rs) == 2 + |r.freqs| + WrittenSize(rs)
  {
    var all := [r] + rs;
    assert all[1..] == rs;
    assert forall i | 0 < i < |all| :: all[i] == rs[i - 1];
  }

  /** The ranges that the loop has read, the first of them at `at`. */
  lemma {:induction false} RangesRead(buf: seq<byte>, size: nat, at: nat, w: Weights) returns (rs: seq<Range>)
    requires size + PADDING <= |buf| && at + 2 <= |buf|
    requires Ranges(buf, size, at + 2, buf[at], buf[at + 1], w).Parsed?
    ensures Writable(rs) && rs[0].start == buf[at] && WrittenAt(rs, buf, at)
    ensures Align4(at + WrittenSize(rs)) <= size
    decreases |buf| - at
  {
    var r, next, v := RangeParsed(buf, size, at, w);
    var rest := [];
    if buf[next] != 0 {
      rest := RangesRead(buf, size, next, v);
    }
    RangeInFront(r, rest, buf, at);
    rs := [r] + rest;
  }

  lemma {:induction false} WrittenAtIsWritten(rs: seq<Range>, buf: seq<byte>, pos: nat)
    requires WrittenAt(rs, buf, pos)
    ensures |Write(rs)| == WrittenSize(rs) && pos + |Write(rs)| <= |buf| && buf[pos..pos + |Write(rs)|] == Write(rs)
    decreases rs
  {
    if rs != [] {
      var r, after := rs[0], pos + 2 + |rs[0].freqs|;
      WrittenAtIsWritten(rs[1..], buf, after);
      assert buf[pos..after] == [r.start, r.end] + r.freqs by {
        assert buf[pos..after] == [buf[pos], buf[pos + 1]] + buf[pos + 2..after];
      }
      assert buf[pos..after + |Write(rs[1..])|] == buf[pos..after] + buf[after..after + |Write(rs[1..])|];
    }
  }

  /** What is malformed: data parses exactly when it begins with written ranges, aligned inside it. */
  lemma {:induction false} ParsedIff(buf: seq<byte>, size: nat)
    requires size + PADDING <= |buf|
    ensures Parse(buf, size).Parsed?
            <==> exists rs :: Writable(rs) && Write(rs) <= buf && Align4(|Write(rs)|) <= size
  {
    if Parse(buf, size).Parsed? {
      var rs := RangesRead(buf, size, 0, Empty());
      WrittenAtIsWritten(rs, buf, 0);
      assert Write(rs) <= buf;
    }
    if rs :| Writable(rs) && Write(rs) <= buf && Align4(|Write(rs)|) <= size {
      RoundTrip(rs, buf, size);
    }
  }

  // ---------- the loops ----------

  /** Copies one range of frequencies into the table. */
  method ReadRange(buf: seq<byte>, pos: nat, start: byte, end: byte, frequency: array<nat>) returns (ptr: nat)
    requires pos + Span(start, end) <= |buf| && frequency.Length == NODES
    modifies frequency
    ensures ptr == pos + Span(start, end)
    ensures frequency[..] == Overlay(old(frequency[..]), start, buf[pos..ptr])
  {
    ptr := pos;
    var i: int := start;
    while i <= end
      invariant start <= i && (i <= end + 1 || i == start) && ptr == pos + (i - start)
      invariant forall k | 0 <= k < NODES ::
                  frequency[k] == if start <= k < i then buf[pos + (k - start)] else old(frequency[k])
    {
      frequency[i] := buf[ptr];
      ptr := ptr + 1;
      i := i + 1;
    }
    ghost var freqs := buf[pos..ptr];
    assert frequency[..] == Overlay(old(frequency[..]), start, freqs) by {
      assert forall k | 0 <= k < |freqs| :: freqs[k] == buf[pos + k];
    }
  }

  /** Steps on to the next multiple of four. */
  method AlignPointer(last: nat) returns (ptr: nat)
    ensures ptr == Align4(last)
  {
    ptr := last;
    while ptr % 4 != 0
      invariant last <= ptr <= Align4(last)
      decreases Align4(last) - ptr
    {
      ptr := ptr + 1;
    }
  }

  /** The frequency table and the position after it, or failure where the source returns NULL. */
  method ReadFrequencies(buf: seq<byte>, size: nat, frequency: array<nat>) returns (ok: bool, ptr: nat)
    requires size + PADDING <= |buf|
    requires frequency.Length == NODES && frequency[..] == Empty()
    modifies frequency
    ensures ok <==> Parse(buf, size).Parsed?
    ensures ok ==> frequency[..] == Parse(buf, size).w && ptr == Parse(buf, size).next
  {
    var start, end := buf[0], buf[1];
    ptr := 2;
    while true
      invariant Ranges(buf, size, ptr, start, end, frequency[..]) == Parse(buf, size)
      decreases |buf| - ptr
    {
      var count: int := end as int - start as int + 1;
      if size - ptr < (if count > 0 then count else 0) + 1 {
        return false, ptr;
      }
      ptr := ReadRange(buf, ptr, start, end, frequency);
      start := buf[ptr];
      ptr := ptr + 1;
      if start == 0 {
        break;
      }
      end := buf[ptr];
      ptr := ptr + 1;
    }
    frequency[256] := 1;
    ptr := AlignPointer(ptr);
    ok := ptr <= size;
  }

  /** read_huffman_tables as a whole: it fails on malformed data and on tables that init_vlc refuses,
      and otherwise the tables are those of the parsed frequencies. */
  method ReadHuffmanTables(buf: seq<byte>, size: nat)
    returns (ok: bool, ptr: nat, bitsTab: array<int>, lenTab: array<int>, overflow: bool)
    requires size + PADDING <= |buf|
    ensures fresh(bitsTab) && fresh(lenTab)
    ensures Parse(buf, size).Parsed? ==> Frequencies(Parse(buf, size).w)
    ensures ok <==> Parse(buf, size).Parsed? && (LiveCount(Parse(buf, size).w) <= 256 || HasLone(Parse(buf, size).w))
    ensures ok ==> ptr == Parse(buf, size).next <= size
    ensures ok ==> TablesFor(Parse(buf, size).w, bitsTab[..], lenTab[..]) && InitVlc(bitsTab[..], lenTab[..])
    ensures ok && LiveCount(Parse(buf, size).w) >= 2 ==>
              var a, b := First(Parse(buf, size).w), Second(Parse(buf, size).w);
              && a < SYMBOLS && b < SYMBOLS && lenTab[a] == lenTab[b]
              && bitsTab[a] % 2 == 0 && bitsTab[b] == bitsTab[a] + 1
    ensures !overflow
  {
    var frequency := new nat[NODES](_ => 0);
    bitsTab, lenTab, overflow := new int[0], new int[0], false;
    ParsedIsFrequencies(buf, size, 2, buf[0], buf[1], Empty());
    assert frequency[..] == Empty();
    ok, ptr := ReadFrequencies(buf, size, frequency);
    if ok {
      ghost var w := Parse(buf, size).w;
      bitsTab, lenTab, overflow := BuildTables(frequency);
      InitVlcIff(w, bitsTab[..], lenTab[..]);
      if LiveCount(w) >= 2 {
        LightestAreSiblings(w, bitsTab[..], lenTab[..]);
      }
      ok := InitVlc(bitsTab[..], lenTab[..]);
    }
  }
}
