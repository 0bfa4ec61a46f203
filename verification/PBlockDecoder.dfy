/** decode_p_block, mcdc and decode_p_frame over the frame buffers. */
module PBlockDecoder {
  import opened Basics
  import opened BlockTypes
  import opened PBlockSpec

  /** Row y + r of a block starts at Index(x, y + r), and its w pixels are those indices only. */
  lemma {:induction false} RowIndices(stride: nat, px: nat, py: nat, x: nat, y: nat, w: nat)
    requires px < stride && x + w <= stride
    ensures Index(stride, x, y) <= Index(stride, px, py) < Index(stride, x, y) + w
            <==> py == y && x <= px < x + w
  {
    if py < y {
      RowsIncrease(stride, py + 1, y);
    } else if py > y {
      RowsIncrease(stride, y + 1, py);
    }
  }

  /** What mcdc stores for source pixel s: scale is 1 for a copy and 0 for a fill. */
  function Mixed(last: seq<pixel>, s: int, odd: bool, scale: nat, dc: pixel): pixel
    requires scale <= 1 && (scale == 1 ==> 0 <= s < |last| && (odd ==> s > 0))
  {
    if scale == 0 then dc else Added(last, s, odd, dc)
  }

  lemma {:induction false} NextRow(stride: nat, x: nat, y: nat)
    ensures Index(stride, x, y + 1) == Index(stride, x, y) + stride
  {
  }

  /** LE_CENTRIC_MUL: two pixels as one 32-bit word, multiplied by scale and added to a pair of dc. */
  function PairWord(low: pixel, high: pixel, scale: nat, dc: pixel): (r: int)
    ensures 0 <= r < 0x1_0000_0000
  {
    ((low as int + 0x1_0000 * high as int) * scale + dc as int * 0x1_0001) % 0x1_0000_0000
  }

  /** Its halves are the two mixed pixels, the carry of the low one included. */
  lemma {:induction false} PairWordIs(last: seq<pixel>, s: nat, scale: nat, dc: pixel)
    requires s + 1 < |last| && scale <= 1
    ensures PairWord(last[s], last[s + 1], scale, dc) % 0x1_0000 == Mixed(last, s, false, scale, dc)
    ensures PairWord(last[s], last[s + 1], scale, dc) / 0x1_0000 == Mixed(last, s + 1, true, scale, dc)
  {
    var low, high, add := last[s] as int, last[s + 1] as int, dc as int;
    if scale == 0 {
      assert PairWord(last[s], last[s + 1], scale, dc) == add * 0x1_0001;
    } else {
      assert PairWord(last[s], last[s + 1], scale, dc) == (low + add + 0x1_0000 * (high + add)) % 0x1_0000_0000;
      PackedSum(low + add, high + add);
    }
  }

  /** The store of a block one pixel wide, cut off to 16 bits. */
  function SingleWord(low: pixel, scale: nat, dc: pixel): pixel {
    (scale * low as int + dc as int * 0x1_0001) % 0x1_0000
  }

  lemma {:induction false} SingleWordIs(last: seq<pixel>, s: nat, scale: nat, dc: pixel)
    requires s < |last| && scale <= 1
    ensures SingleWord(last[s], scale, dc) == Mixed(last, s, false, scale, dc)
  {
    if scale == 0 {
      assert SingleWord(last[s], 0, dc) == dc;
    } else {
      assert SingleWord(last[s], 1, dc) == (last[s] as int + dc as int) % 0x1_0000;
    }
  }

  lemma {:induction false} PackedSum(sum0: nat, sum1: nat)
    requires sum0 < 0x2_0000 && sum1 < 0x2_0000
    ensures var t := (sum0 + 0x1_0000 * sum1) % 0x1_0000_0000;
            t % 0x1_0000 == sum0 % 0x1_0000 && t / 0x1_0000 == (sum1 + sum0 / 0x1_0000) % 0x1_0000
  {
  }

  /** What decoding one block guarantees, p being what the streams parse to: it succeeds exactly when
      they parse to a tree, the readers then stand behind it, every leaf is painted, and in any case
      nothing outside the block is touched. */
  ghost predicate Decoded(i: Picture, last: seq<pixel>, before: seq<pixel>, after: seq<pixel>, p: Parsed, pos: Readers,
                          x: nat, y: nat, log2w: nat, log2h: nat, ok: bool) {
    && Frames(i, last, before, after)
    && Untouched(i, before, after, x, y, log2w, log2h)
    && (ok <==> p.Block?)
    && (ok ==>
          && pos == p.rest && Shaped(p.tree, log2w, log2h)
          && Painted(i, last, before, after, Leaves(p.tree, x, y, log2w, log2h)))
  }

  lemma {:induction false} UntouchedWider(i: Picture, before: seq<pixel>, after: seq<pixel>, x: nat, y: nat, x': nat, y': nat,
                       log2w: nat, log2h: nat, wide: nat, high: nat)
    requires |before| == |after| == Pixels(i) && Untouched(i, before, after, x, y, log2w, log2h)
    requires forall px: nat, py: nat | In(px, py, x, y, log2w, log2h) :: In(px, py, x', y', wide, high)
    ensures Untouched(i, before, after, x', y', wide, high)
  {
  }

  lemma {:induction false} UntouchedTwice(i: Picture, before: seq<pixel>, mid: seq<pixel>, after: seq<pixel>, x: nat, y: nat,
                       log2w: nat, log2h: nat)
    requires |before| == |mid| == |after| == Pixels(i)
    requires Untouched(i, before, mid, x, y, log2w, log2h) && Untouched(i, mid, after, x, y, log2w, log2h)
    ensures Untouched(i, before, after, x, y, log2w, log2h)
  {
  }

  /** Two decoded halves make a decoded block. */
  lemma {:induction false} JoinHalves(i: Picture, last: seq<pixel>, before: seq<pixel>, mid: seq<pixel>, after: seq<pixel>, rows: bool,
                   a: Parsed, b: Parsed, pos: Readers, x: nat, y: nat, log2w: nat, log2h: nat, ok: bool)
    requires log2w <= 3 && log2h <= 3 && (if rows then log2h > 0 else log2w > 0) && a.Block?
    requires Decoded(i, last, before, mid, a, a.rest, x, y, Half(log2w, !rows), Half(log2h, rows), true)
    requires Decoded(i, last, mid, after, b, pos, Beyond(x, log2w, !rows), Beyond(y, log2h, rows),
                     Half(log2w, !rows), Half(log2h, rows), ok)
    ensures Decoded(i, last, before, after, Both(rows, a, b), pos, x, y, log2w, log2h, ok)
  {
    var w, h, x', y' := Half(log2w, !rows), Half(log2h, rows), Beyond(x, log2w, !rows), Beyond(y, log2h, rows);
    forall px: nat, py: nat {
      Halves(rows, x, y, log2w, log2h, px, py);
    }
    UntouchedWider(i, before, mid, x, y, x, y, w, h, log2w, log2h);
    UntouchedWider(i, mid, after, x', y', x, y, w, h, log2w, log2h);
    UntouchedTwice(i, before, mid, after, x, y, log2w, log2h);
    if ok {
      LeavesInside(a.tree, x, y, w, h);
      LeavesInside(b.tree, x', y', w, h);
      PaintBoth(i, last, before, mid, after, Leaves(a.tree, x, y, w, h), x, y, Leaves(b.tree, x', y', w, h), x', y', w, h);
    }
  }

  /** The two halves of a split block, as ParseBlock takes them. */
  function ParseHalves(i: Picture, r: Readers, rows: bool, x: nat, y: nat, log2w: int, log2h: int): Parsed
    requires Splittable(log2w, log2h) && Splittable(Half(log2w, !rows), Half(log2h, rows))
  {
    var w, h := Half(log2w, !rows), Half(log2h, rows);
    var a := ParseBlock(i, r, x, y, w, h);
    if a.Failed? then Failed
    else Both(rows, a, ParseBlock(i, a.rest, Beyond(x, log2w, !rows), Beyond(y, log2h, rows), w, h))
  }

  lemma {:induction false} ParseBlockIs(i: Picture, r: Readers, x: nat, y: nat, log2w: int, log2h: int)
    requires Splittable(log2w, log2h)
    ensures var p, (c, n) := ParseBlock(i, r, x, y, log2w, log2h), TypeOf(i, r.gb, log2w, log2h);
            var r1 := r.(gb := r.gb + n);
            p == if |i.bits| - r.gb < 1 then Failed
                 else if c == 1 || c == 2 then ParseHalves(i, r1, c == 1, x, y, log2w, log2h)
                 else ParseLeaf(i, r1, c, x, y, log2w, log2h)
  {
  }

  lemma {:induction false} NothingDone(i: Picture, last: seq<pixel>, frame: seq<pixel>, p: Parsed, pos: Readers,
                    x: nat, y: nat, log2w: nat, log2h: nat)
    requires Frames(i, last, frame, frame) && (p.Block? ==> p == Block(Leaf(Keep), pos))
    requires log2w <= 3 && log2h <= 3
    ensures Decoded(i, last, frame, frame, p, pos, x, y, log2w, log2h, p.Block?)
  {
  }

  lemma {:induction false} LeafDone(i: Picture, last: seq<pixel>, before: seq<pixel>, after: seq<pixel>, op: Op, pos: Readers,
                 x: nat, y: nat, log2w: nat, log2h: nat)
    requires Frames(i, last, before, after) && log2w <= 3 && log2h <= 3
    requires Untouched(i, before, after, x, y, log2w, log2h)
    requires AreaPainted(i, last, before, after, Area(x, y, log2w, log2h, op))
    ensures Decoded(i, last, before, after, Block(Leaf(op), pos), pos, x, y, log2w, log2h, true)
  {
  }

  /** A failure in the first half leaves the rest of the block alone, too. */
  lemma {:induction false} FirstHalfFailed(i: Picture, last: seq<pixel>, before: seq<pixel>, after: seq<pixel>, rows: bool,
                        p: Parsed, pos: Readers, x: nat, y: nat, log2w: nat, log2h: nat)
    requires log2w <= 3 && log2h <= 3 && if rows then log2h > 0 else log2w > 0
    requires Decoded(i, last, before, after, p, pos, x, y, Half(log2w, !rows), Half(log2h, rows), false)
    ensures Decoded(i, last, before, after, Failed, pos, x, y, log2w, log2h, false)
  {
    forall px: nat, py: nat {
      Halves(rows, x, y, log2w, log2h, px, py);
    }
    UntouchedWider(i, before, after, x, y, x, y, Half(log2w, !rows), Half(log2h, rows), log2w, log2h);
  }

  class FourXContext {
    var input: Picture
    var gb: nat
    var g: nat
    var g2: nat
    var frame: array<pixel>
    var lastFrame: array<pixel>

    constructor (input: Picture)
      ensures Valid() && fresh(frame) && fresh(lastFrame) && this.input == input
      ensures gb == g == g2 == 0
    {
      this.input := input;
      gb, g, g2 := 0, 0, 0;
      frame := new pixel[Pixels(input)](_ => 0);
      lastFrame := new pixel[Pixels(input)](_ => 0);
    }

    ghost predicate Valid()
      reads this
    {
      frame != lastFrame && frame.Length == lastFrame.Length == Pixels(input)
    }

    function Position(): Readers
      reads this
    {
      Readers(gb, g, g2)
    }

    /** The first n pixels of a row have been stored, and nothing else. */
    ghost predicate RowDone(before: seq<pixel>, dst: nat, src: nat, n: nat, scale: nat, dc: pixel)
      reads this, frame, lastFrame
      requires Valid() && scale <= 1 && |before| == frame.Length
      requires dst + n <= frame.Length && src + n <= lastFrame.Length
    {
      forall p | 0 <= p < frame.Length ::
        frame[p] == if dst <= p < dst + n
                    then Mixed(lastFrame[..], src + (p - dst), (p - dst) % 2 == 1, scale, dc)
                    else before[p]
    }

    /** AV_WN32A on a little-endian host: two neighbouring pixels. */
    method StoreTwo(p: nat, low: pixel, high: pixel)
      requires p + 2 <= frame.Length
      modifies frame
      ensures frame[..] == old(frame[..])[p := low][p + 1 := high]
    {
      frame[p] := low;
      frame[p + 1] := high;
    }

    /** The next two pixels of a row. */
    method MulPair(dst: nat, src: nat, n: nat, scale: nat, dc: pixel, ghost before: seq<pixel>)
      requires Valid() && scale <= 1 && |before| == frame.Length && n % 2 == 0
      requires dst + n + 2 <= frame.Length && src + n + 2 <= lastFrame.Length
      requires RowDone(before, dst, src, n, scale, dc)
      modifies frame
      ensures RowDone(before, dst, src, n + 2, scale, dc)
    {
      PairWordIs(lastFrame[..], src + n, scale, dc);
      var tmpval := PairWord(lastFrame[src + n], lastFrame[src + n + 1], scale, dc);
      var low: pixel, high: pixel := tmpval % 0x1_0000, tmpval / 0x1_0000;
      ghost var last := lastFrame[..];
      StoreTwo(dst + n, low, high);
      assert lastFrame[..] == last;
      assert n % 2 == 0 && (n + 1) % 2 == 1;
    }

    /** One row of mcdc. */
    method McdcRow(dst: nat, src: nat, log2w: nat, scale: nat, dc: pixel)
      requires Valid() && scale <= 1 && log2w <= 3
      requires dst + Side(log2w) <= frame.Length && src + Side(log2w) <= lastFrame.Length
      modifies frame
      ensures RowDone(old(frame[..]), dst, src, Side(log2w), scale, dc)
    {
      ghost var before := frame[..];
      if log2w == 0 {
        SingleWordIs(lastFrame[..], src, scale, dc);
        ghost var last := lastFrame[..];
        frame[dst] := SingleWord(lastFrame[src], scale, dc);
        assert lastFrame[..] == last;
      } else {
        MulPair(dst, src, 0, scale, dc, before);
        if log2w >= 2 {
          MulPair(dst, src, 2, scale, dc, before);
        }
        if log2w >= 3 {
          MulPair(dst, src, 4, scale, dc, before);
          MulPair(dst, src, 6, scale, dc, before);
        }
      }
    }

    /** The rows above row r of a block are painted, and nothing else is touched. */
    ghost predicate RowsPainted(before: seq<pixel>, op: Op, x: nat, y: nat, log2w: nat, log2h: nat, r: nat)
      reads this, frame, lastFrame
      requires Valid() && |before| == frame.Length && SoundOp(input, op, x, y, log2w, log2h)
    {
      forall px: nat, py: nat | px < input.stride && py < input.height ::
        PBlockSpec.At(input, frame[..], px, py)
        == if In(px, py, x, y, log2w, log2h) && py < y + r
           then OpPixel(input, lastFrame[..], op, x, y, log2w, log2h, px, py, PBlockSpec.At(input, before, px, py))
           else PBlockSpec.At(input, before, px, py)
    }

    /** mcdc: h rows of a copied or filled block. */
    method Mcdc(dst: nat, src: nat, log2w: nat, log2h: nat, scale: nat, dc: pixel,
                ghost op: Op, ghost x: nat, ghost y: nat)
      requires Valid() && log2w <= 3 && log2h <= 3
      requires x + Side(log2w) <= input.stride && y + Side(log2h) <= input.height
      requires dst == Index(input.stride, x, y) && InPicture(input, src, log2w, log2h)
      requires (scale == 1 && op == Copy(src - dst, dc)) || (scale == 0 && op == Fill(dc))
      modifies frame
      ensures Untouched(input, old(frame[..]), frame[..], x, y, log2w, log2h)
      ensures AreaPainted(input, lastFrame[..], old(frame[..]), frame[..], Area(x, y, log2w, log2h, op))
    {
      ghost var before := frame[..];
      var h, i, d, s := Side(log2h), 0, dst, src;
      InPictureIff(input, src, log2w, log2h);
      while i < h
        invariant i <= h && d == Index(input.stride, x, y + i)
        invariant s == if scale == 1 then src + Index(input.stride, 0, i) else src
        invariant RowsPainted(before, op, x, y, log2w, log2h, i)
      {
        ghost var mid := frame[..];
        RowFits(input, x, y + i, log2w);
        SourceRowFits(input, src, log2w, log2h, if scale == 1 then i else 0);
        McdcRow(d, s, log2w, scale, dc);
        PaintRow(before, mid, op, x, y, log2w, log2h, i, d, s, scale, dc);
        NextRow(input.stride, x, y + i);
        NextRow(input.stride, 0, i);
        if scale == 1 {
          s := s + input.stride;
        }
        d := d + input.stride;
        i := i + 1;
      }
      AllRowsPainted(before, op, x, y, log2w, log2h);
    }

    lemma {:induction false} AllRowsPainted(before: seq<pixel>, op: Op, x: nat, y: nat, log2w: nat, log2h: nat)
      requires Valid() && |before| == frame.Length && SoundOp(input, op, x, y, log2w, log2h)
      requires RowsPainted(before, op, x, y, log2w, log2h, Side(log2h))
      ensures Untouched(input, before, frame[..], x, y, log2w, log2h)
      ensures AreaPainted(input, lastFrame[..], before, frame[..], Area(x, y, log2w, log2h, op))
    {
    }

    static lemma {:induction false} RowFits(i: Picture, x: nat, y: nat, log2w: nat)
      requires x + Side(log2w) <= i.stride && y < i.height
      ensures Index(i.stride, x, y) + Side(log2w) <= Pixels(i)
    {
      IndexInside(i, x + Side(log2w) - 1, y);
    }

    static lemma {:induction false} SourceRowFits(i: Picture, src: nat, log2w: nat, log2h: nat, r: nat)
      requires InPicture(i, src, log2w, log2h) && r < Side(log2h)
      ensures src + Index(i.stride, 0, r) + Side(log2w) <= Pixels(i)
    {
      SourcePixels(i, src, log2w, log2h, Side(log2w) - 1, r);
    }

    lemma {:induction false} PaintRow(before: seq<pixel>, mid: seq<pixel>, op: Op, x: nat, y: nat, log2w: nat, log2h: nat, r: nat,
                   d: nat, s: nat, scale: nat, dc: pixel)
      requires Valid() && |before| == |mid| == frame.Length && scale <= 1
      requires SoundOp(input, op, x, y, log2w, log2h) && r < Side(log2h)
      requires x + Side(log2w) <= input.stride && y + Side(log2h) <= input.height
      requires d == Index(input.stride, x, y + r) && d + Side(log2w) <= frame.Length
      requires s + Side(log2w) <= lastFrame.Length
      requires if scale == 0 then op == Fill(dc)
               else op.Copy? && op.dc == dc && s == Index(input.stride, x, y) + op.shift + Index(input.stride, 0, r)
      requires forall px: nat, py: nat | px < input.stride && py < input.height ::
                 PBlockSpec.At(input, mid, px, py)
                 == if In(px, py, x, y, log2w, log2h) && py < y + r
                    then OpPixel(input, lastFrame[..], op, x, y, log2w, log2h, px, py, PBlockSpec.At(input, before, px, py))
                    else PBlockSpec.At(input, before, px, py)
      requires RowDone(mid, d, s, Side(log2w), scale, dc)
      ensures RowsPainted(before, op, x, y, log2w, log2h, r + 1)
    {
      forall px: nat, py: nat | px < input.stride && py < input.height
        ensures PBlockSpec.At(input, frame[..], px, py)
                == if In(px, py, x, y, log2w, log2h) && py < y + r + 1
                   then OpPixel(input, lastFrame[..], op, x, y, log2w, log2h, px, py, PBlockSpec.At(input, before, px, py))
                   else PBlockSpec.At(input, before, px, py)
      {
        RowIndices(input.stride, px, py, x, y + r, Side(log2w));
        IndexInside(input, px, py);
        var p := Index(input.stride, px, py);
        if py == y + r && x <= px < x + Side(log2w) {
          assert p - d == px - x;
          assert frame[p] == Mixed(lastFrame[..], s + (px - x), (px - x) % 2 == 1, scale, dc);
        } else {
          assert frame[p] == mid[p];
          assert PBlockSpec.At(input, frame[..], px, py) == PBlockSpec.At(input, mid, px, py);
        }
      }
    }

    method DecodePBlock(dst: nat, src: int, log2w: int, log2h: int, ghost x: nat, ghost y: nat)
      returns (ok: bool)
      requires Valid() && Splittable(log2w, log2h)
      requires x + Side(log2w) <= input.stride && y + Side(log2h) <= input.height
      requires dst == src == Index(input.stride, x, y)
      modifies this`gb, this`g, this`g2, frame
      ensures Decoded(input, lastFrame[..], old(frame[..]), frame[..],
                      ParseBlock(input, old(Position()), x, y, log2w, log2h), Position(), x, y, log2w, log2h, ok)
      decreases log2w + log2h, 1
    {
      ParseBlockIs(input, Position(), x, y, log2w, log2h);
      ghost var before, parsed := frame[..], ParseBlock(input, Position(), x, y, log2w, log2h);
      if |input.bits| - gb < 1 {
        NothingDone(input, lastFrame[..], before, parsed, Position(), x, y, log2w, log2h);
        return false;
      }
      var (code, length) := TypeOf(input, gb, log2w, log2h);
      gb := gb + length;
      if code == 1 {
        ok := DecodeRows(dst, src, log2w, log2h, x, y);
      } else if code == 2 {
        ok := DecodeCols(dst, src, log2w, log2h, x, y);
      } else {
        ok := DecodeLeaf(dst, src, code, log2w, log2h, x, y);
      }
    }

    /** Code 1. */
    method DecodeRows(dst: nat, src: int, log2w: int, log2h: int, ghost x: nat, ghost y: nat) returns (ok: bool)
      requires Valid() && Splittable(log2w, log2h) && Splittable(log2w, log2h - 1)
      requires x + Side(log2w) <= input.stride && y + Side(log2h) <= input.height
      requires dst == src == Index(input.stride, x, y)
      modifies this`gb, this`g, this`g2, frame
      ensures Decoded(input, lastFrame[..], old(frame[..]), frame[..],
                      ParseHalves(input, old(Position()), true, x, y, log2w, log2h), Position(), x, y, log2w, log2h, ok)
      decreases log2w + log2h, 0
    {
      ghost var before, start := frame[..], Position();
      var h := log2h - 1;
      ok := DecodePBlock(dst, src, log2w, h, x, y);
      if !ok {
        FirstHalfFailed(input, lastFrame[..], before, frame[..], true, Failed, Position(), x, y, log2w, log2h);
        return;
      }
      ghost var mid, a := frame[..], ParseBlock(input, start, x, y, log2w, h);
      RowsBelow(input.stride, x, y, Side(h));
      ok := DecodePBlock(dst + input.stride * Side(h), src + input.stride * Side(h), log2w, h, x, y + Side(h));
      JoinHalves(input, lastFrame[..], before, mid, frame[..], true, a,
                 ParseBlock(input, a.rest, x, y + Side(h), log2w, h), Position(), x, y, log2w, log2h, ok);
    }

    /** Code 2. */
    method DecodeCols(dst: nat, src: int, log2w: int, log2h: int, ghost x: nat, ghost y: nat) returns (ok: bool)
      requires Valid() && Splittable(log2w, log2h) && Splittable(log2w - 1, log2h)
      requires x + Side(log2w) <= input.stride && y + Side(log2h) <= input.height
      requires dst == src == Index(input.stride, x, y)
      modifies this`gb, this`g, this`g2, frame
      ensures Decoded(input, lastFrame[..], old(frame[..]), frame[..],
                      ParseHalves(input, old(Position()), false, x, y, log2w, log2h), Position(), x, y, log2w, log2h, ok)
      decreases log2w + log2h, 0
    {
      ghost var before, start := frame[..], Position();
      var w := log2w - 1;
      ok := DecodePBlock(dst, src, w, log2h, x, y);
      if !ok {
        FirstHalfFailed(input, lastFrame[..], before, frame[..], false, Failed, Position(), x, y, log2w, log2h);
        return;
      }
      ghost var mid, a := frame[..], ParseBlock(input, start, x, y, w, log2h);
      ok := DecodePBlock(dst + Side(w), src + Side(w), w, log2h, x + Side(w), y);
      JoinHalves(input, lastFrame[..], before, mid, frame[..], false, a,
                 ParseBlock(input, a.rest, x + Side(w), y, w, log2h), Position(), x, y, log2w, log2h, ok);
    }

    static lemma {:induction false} RowsBelow(stride: nat, x: nat, y: nat, h: nat)
      ensures Index(stride, x, y + h) == Index(stride, x, y) + stride * h
    {
      RowStartIs(stride, h);
      RowsAdd(stride, y, h);
    }

    /** The codes that do not split. */
    method DecodeLeaf(dst: nat, src: int, code: nat, log2w: nat, log2h: nat, ghost x: nat, ghost y: nat)
      returns (ok: bool)
      requires Valid() && Splittable(log2w, log2h)
      requires code <= 6 && code != 1 && code != 2 && (code == 6 ==> log2w + log2h == 1)
      requires x + Side(log2w) <= input.stride && y + Side(log2h) <= input.height
      requires dst == src == Index(input.stride, x, y)
      modifies this`gb, this`g, this`g2, frame
      ensures Decoded(input, lastFrame[..], old(frame[..]), frame[..],
                      ParseLeaf(input, old(Position()), code, x, y, log2w, log2h), Position(), x, y, log2w, log2h, ok)
    {
      ghost var before, parsed := frame[..], ParseLeaf(input, Position(), code, x, y, log2w, log2h);
      ok := false;
      if code == 6 {
        if |input.words| - g2 < 4 {
          NothingDone(input, lastFrame[..], before, parsed, Position(), x, y, log2w, log2h);
          return;
        }
        StorePair(dst, log2w, log2h, x, y);
        LeafDone(input, lastFrame[..], before, frame[..], parsed.tree.op, Position(), x, y, log2w, log2h);
        return true;
      }
      if (code == 0 || code == 4) && |input.bytes| - g < 1 {
        NothingDone(input, lastFrame[..], before, parsed, Position(), x, y, log2w, log2h);
        return;
      }
      var from, scale, dc: pixel := src, 1, 0;
      if code == 0 {
        from := from + input.mv[input.bytes[g]];
        g := g + 1;
      } else if code == 3 && input.version >= 2 {
        NothingDone(input, lastFrame[..], before, parsed, Position(), x, y, log2w, log2h);
        return true;
      } else if code == 4 {
        from := from + input.mv[input.bytes[g]];
        g := g + 1;
        if |input.words| - g2 < 2 {
          NothingDone(input, lastFrame[..], before, parsed, Position(), x, y, log2w, log2h);
          return;
        }
        dc := Word16(input.words, g2);
        g2 := g2 + 2;
      } else if code == 5 {
        if |input.words| - g2 < 2 {
          NothingDone(input, lastFrame[..], before, parsed, Position(), x, y, log2w, log2h);
          return;
        }
        CoLocatedInPicture(input, x, y, log2w, log2h);
        assert InPicture(input, src, log2w, log2h);
        scale := 0;
        dc := Word16(input.words, g2);
        g2 := g2 + 2;
      }
      if !InPicture(input, from, log2w, log2h) {
        NothingDone(input, lastFrame[..], before, parsed, Position(), x, y, log2w, log2h);
        return;
      }
      ghost var op := if scale == 0 then Fill(dc) else Copy(from - dst, dc);
      Mcdc(dst, from, log2w, log2h, scale, dc, op, x, y);
      LeafDone(input, lastFrame[..], before, frame[..], op, Position(), x, y, log2w, log2h);
      return true;
    }

    /** Code 6: two literal pixels, side by side or one above the other. */
    method StorePair(dst: nat, log2w: nat, log2h: nat, ghost x: nat, ghost y: nat)
      requires Valid() && log2w + log2h == 1 && g2 + 4 <= |input.words|
      requires x + Side(log2w) <= input.stride && y + Side(log2h) <= input.height
      requires dst == Index(input.stride, x, y)
      modifies this`g2, frame
      ensures g2 == old(g2) + 4
      ensures Untouched(input, old(frame[..]), frame[..], x, y, log2w, log2h)
      ensures AreaPainted(input, lastFrame[..], old(frame[..]), frame[..],
                Area(x, y, log2w, log2h, Pair(Word16(input.words, old(g2)), Word16(input.words, old(g2) + 2))))
    {
      ghost var before, start := frame[..], g2;
      var second := dst + if log2w > 0 then 1 else input.stride;
      NextRow(input.stride, x, y);
      IndexInside(input, x, y);
      IndexInside(input, if log2w > 0 then x + 1 else x, if log2w > 0 then y else y + 1);
      frame[dst] := Word16(input.words, g2);
      frame[second] := Word16(input.words, g2 + 2);
      g2 := g2 + 4;
      forall px: nat, py: nat | px < input.stride && py < input.height
        ensures PBlockSpec.At(input, frame[..], px, py)
                == if px == x && py == y then Word16(input.words, start)
                   else if In(px, py, x, y, log2w, log2h) then Word16(input.words, start + 2)
                   else PBlockSpec.At(input, before, px, py)
      {
        IndexInside(input, px, py);
        RowIndices(input.stride, px, py, x, y, 1);
        RowIndices(input.stride, px, py, if log2w > 0 then x + 1 else x, if log2w > 0 then y else y + 1, 1);
      }
    }

    /** The part of the frame before block (x, y) is painted by ls, and the rest is old. */
    ghost predicate PaintedUpTo(before: seq<pixel>, ls: seq<Area>, x: nat, y: nat)
      reads this, frame, lastFrame
      requires Valid() && |before| == frame.Length
    {
      && Painted(input, lastFrame[..], before, frame[..], ls)
      && forall px: nat, py: nat | px < input.stride && py < input.height && !Before(px, py, x, y) ::
           && PBlockSpec.At(input, frame[..], px, py) == PBlockSpec.At(input, before, px, py)
           && NoneCovers(ls, px, py)
    }

    /** The inner loop of decode_p_frame: one row of blocks. */
    method DecodeBlockRow(start: nat, y: nat, ghost before: seq<pixel>, ghost done: seq<Area>)
      returns (ok: bool, ghost leaves: seq<Area>)
      requires Valid() && WholeBlocks(input) && y + 8 <= input.height && start == Index(input.stride, 0, y)
      requires |before| == frame.Length && PaintedUpTo(before, done, 0, y)
      modifies this`gb, this`g, this`g2, frame
      ensures !ok ==> Prepend(done, ParseFrom(input, old(Position()), 0, y)).BadFrame?
      ensures ok ==> PaintedUpTo(before, leaves, 0, y + 8)
      ensures ok ==> Prepend(done, ParseFrom(input, old(Position()), 0, y))
                     == Prepend(leaves, ParseFrom(input, Position(), 0, y + 8))
    {
      var x := 0;
      leaves := done;
      ghost var whole := Prepend(done, ParseFrom(input, Position(), 0, y));
      while x < input.stride
        invariant x % 8 == 0 && x <= input.stride
        invariant whole == Prepend(leaves, ParseFrom(input, Position(), x, y))
        invariant PaintedUpTo(before, leaves, x, y)
      {
        ghost var mid, pos := frame[..], Position();
        ok := DecodePBlock(start + x, start + x, 3, 3, x, y);
        if !ok {
          return;
        }
        ghost var tree := ParseBlock(input, pos, x, y, 3, 3).tree;
        ghost var here := Leaves(tree, x, y, 3, 3);
        NextBlock(before, mid, leaves, here, tree, x, y);
        PrependTwice(leaves, here, ParseFrom(input, Position(), x + 8, y));
        leaves := leaves + here;
        x := x + 8;
      }
      ok := true;
    }

    /** decode_p_frame after the streams have been set up: it succeeds exactly when all blocks parse,
        and then every leaf of every block is painted. */
    method DecodePFrame() returns (ok: bool)
      requires Valid() && WholeBlocks(input) && gb == g == g2 == 0
      modifies this`gb, this`g, this`g2, frame
      ensures ok <==> ParseFrom(input, Readers(0, 0, 0), 0, 0).GoodFrame?
      ensures ok ==> Painted(input, lastFrame[..], old(frame[..]), frame[..],
                             ParseFrom(input, Readers(0, 0, 0), 0, 0).leaves)
    {
      ghost var before := frame[..];
      ghost var leaves: seq<Area> := [];
      ghost var whole := ParseFrom(input, Position(), 0, 0);
      PrependNothing(whole);
      NothingPainted(before);
      var y, start := 0, 0;
      while y < input.height
        invariant y % 8 == 0 && y <= input.height && start == Index(input.stride, 0, y)
        invariant whole == Prepend(leaves, ParseFrom(input, Position(), 0, y))
        invariant PaintedUpTo(before, leaves, 0, y)
      {
        ok, leaves := DecodeBlockRow(start, y, before, leaves);
        if !ok {
          return;
        }
        EightRows(input.stride, y);
        start := start + 8 * input.stride;
        y := y + 8;
      }
      NoBlocksLeft(input, Position(), y, leaves);
      return true;
    }

    lemma {:induction false} NothingPainted(before: seq<pixel>)
      requires Valid() && before == frame[..]
      ensures PaintedUpTo(before, [], 0, 0)
    {
    }

    static lemma {:induction false} EightRows(stride: nat, y: nat)
      ensures Index(stride, 0, y + 8) == Index(stride, 0, y) + 8 * stride
    {
      RowStartIs(stride, 8);
      RowsAdd(stride, y, 8);
    }

    lemma {:induction false} NextBlock(before: seq<pixel>, mid: seq<pixel>, leaves: seq<Area>, here: seq<Area>, t: Tree, x: nat, y: nat)
      requires Valid() && |before| == |mid| == frame.Length && Shaped(t, 3, 3) && here == Leaves(t, x, y, 3, 3)
      requires Painted(input, lastFrame[..], before, mid, leaves)
      requires forall px: nat, py: nat | px < input.stride && py < input.height && !Before(px, py, x, y) ::
                 PBlockSpec.At(input, mid, px, py) == PBlockSpec.At(input, before, px, py) && NoneCovers(leaves, px, py)
      requires Painted(input, lastFrame[..], mid, frame[..], here) && Untouched(input, mid, frame[..], x, y, 3, 3)
      ensures PaintedUpTo(before, leaves + here, x + 8, y)
    {
      LeavesInside(t, x, y, 3, 3);
      PaintNext(input, lastFrame[..], before, mid, frame[..], leaves, here, x, y);
      forall px: nat, py: nat | px < input.stride && py < input.height && !Before(px, py, x + 8, y)
        ensures PBlockSpec.At(input, frame[..], px, py) == PBlockSpec.At(input, before, px, py)
        ensures NoneCovers(leaves + here, px, py)
      {
        assert !In(px, py, x, y, 3, 3) && !Before(px, py, x, y);
        OutsideUncovered(t, x, y, 3, 3, px, py);
        NoneInBoth(leaves, here, px, py);
      }
    }
  }
}
