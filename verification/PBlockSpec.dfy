/** What the bits of a P-frame block mean: a tree of splits, and a value for every pixel. */
module PBlockSpec {
  import opened Basics
  import opened BlockTypes

  type pixel = x: int | 0 <= x < 0x1_0000

  /** The streams and settings that stay fixed while one P frame is decoded. */
  datatype Input = Input(bits: seq<bool>, bytes: seq<byte>, words: seq<byte>,
                         version: nat, stride: nat, height: nat, mv: seq<int>,
                         tables: Tables)

  type Picture = i: Input | |i.mv| == 256 witness Input([], [], [], 0, 0, 0, seq(256, _ => 0), Standard())

  /** Positions in the bit, byte and word streams. */
  datatype Readers = Readers(gb: nat, g: nat, g2: nat)

  /** What a leaf does: leave the old pixels, copy displaced pixels and add dc, fill with dc, or
      store two literal pixels. */
  datatype Op = Keep | Copy(shift: int, dc: pixel) | Fill(color: pixel) | Pair(first: pixel, second: pixel)

  /** A split is one above the other (rows) or side by side. */
  datatype Tree = Leaf(op: Op) | Split(rows: bool, first: Tree, second: Tree)

  datatype Parsed = Failed | Block(tree: Tree, rest: Readers)

  function Word16(words: seq<byte>, pos: nat): pixel
    requires pos + 2 <= |words|
  {
    words[pos] as int + 256 * words[pos + 1] as int
  }

  /** The offset of row y. */
  function RowStart(stride: nat, y: nat): nat {
    if y == 0 then 0 else RowStart(stride, y - 1) + stride
  }

  lemma {:induction false} RowStartIs(stride: nat, y: nat)
    ensures RowStart(stride, y) == y * stride
  {
    if y > 0 {
      RowStartIs(stride, y - 1);
      assert (y - 1) * stride + stride == y * stride;
    }
  }

  function Index(stride: nat, x: nat, y: nat): nat {
    RowStart(stride, y) + x
  }

  /** The number of pixels of a frame buffer. */
  function Pixels(i: Picture): nat {
    RowStart(i.stride, i.height)
  }

  lemma {:induction false} RowsIncrease(s: nat, a: nat, b: nat)
    requires a <= b
    ensures RowStart(s, a) <= RowStart(s, b)
    decreases b
  {
    if a < b {
      RowsIncrease(s, a, b - 1);
    }
  }

  lemma {:induction false} RowsAdd(s: nat, a: nat, b: nat)
    ensures RowStart(s, a + b) == RowStart(s, a) + RowStart(s, b)
    decreases b
  {
    if b > 0 {
      RowsAdd(s, a, b - 1);
      assert a + b - 1 == a + (b - 1);
    }
  }

  // ---------- the range test on source blocks ----------

  /** start <= src <= end of the source, as offsets into the previous frame. */
  predicate InPicture(i: Picture, src: int, log2w: nat, log2h: nat) {
    && 0 <= src && Side(log2h) <= i.height + 1
    && src <= RowStart(i.stride, i.height - Side(log2h) + 1) - Side(log2w)
  }

  /** The test in the source's own arithmetic. */
  lemma {:induction false} InPictureIs(i: Picture, src: int, log2w: nat, log2h: nat)
    ensures InPicture(i, src, log2w, log2h) <==> 0 <= src <= i.stride * (i.height - Side(log2h) + 1) - Side(log2w)
  {
    var n := i.height - Side(log2h) + 1;
    if n >= 0 {
      RowStartIs(i.stride, n);
    } else {
      assert i.stride * n <= 0;
    }
  }

  /** The test accepts exactly the blocks all of whose pixels lie in the previous frame buffer. */
  lemma {:induction false} InPictureIff(i: Picture, src: int, log2w: nat, log2h: nat)
    ensures InPicture(i, src, log2w, log2h) <==>
            forall dx: nat, dy: nat | dx < Side(log2w) && dy < Side(log2h) ::
              0 <= src + Index(i.stride, dx, dy) < Pixels(i)
  {
    var w, h, s := Side(log2w), Side(log2h), i.stride;
    if h <= i.height + 1 {
      RowsAdd(s, i.height - h + 1, h - 1);
    } else {
      RowsIncrease(s, i.height, h - 1);
    }
    if InPicture(i, src, log2w, log2h) {
      forall dx: nat, dy: nat | dx < w && dy < h
        ensures 0 <= src + Index(s, dx, dy) < Pixels(i)
      {
        RowsIncrease(s, dy, h - 1);
      }
    } else if src >= 0 {
      assert src + Index(s, w - 1, h - 1) >= Pixels(i);
    } else {
      assert src + Index(s, 0, 0) < 0;
    }
  }

  /** A block whose place in the frame is (x, y) is inside the frame, so a source block at the same
      offset passes the test: the assertion for code 5 holds. */
  lemma {:induction false} CoLocatedInPicture(i: Picture, x: nat, y: nat, log2w: nat, log2h: nat)
    requires x + Side(log2w) <= i.stride && y + Side(log2h) <= i.height
    ensures InPicture(i, Index(i.stride, x, y), log2w, log2h)
  {
    RowsIncrease(i.stride, y, i.height - Side(log2h));
  }

  // ---------- parsing ----------

  function TypeOf(i: Picture, gb: nat, log2w: int, log2h: int): (r: (nat, nat))
    requires Splittable(log2w, log2h)
    ensures Allowed(r.0, log2w, log2h)
  {
    NextType(i.tables, if i.version > 1 then 0 else 1, log2w, log2h, i.bits, gb)
  }

  /** The leaf that code c describes, for the block at (x, y). */
  function ParseLeaf(i: Picture, r: Readers, c: nat, x: nat, y: nat, log2w: nat, log2h: nat): Parsed
    requires c <= 6 && c != 1 && c != 2
  {
    var at := Index(i.stride, x, y);
    if c == 6 then
      if |i.words| - r.g2 < 4 then Failed
      else Block(Leaf(Pair(Word16(i.words, r.g2), Word16(i.words, r.g2 + 2))), r.(g2 := r.g2 + 4))
    else if c == 3 && i.version >= 2 then Block(Leaf(Keep), r)
    else if c == 3 then
      if InPicture(i, at, log2w, log2h) then Block(Leaf(Copy(0, 0)), r) else Failed
    else if c == 5 then
      if |i.words| - r.g2 < 2 || !InPicture(i, at, log2w, log2h) then Failed
      else Block(Leaf(Fill(Word16(i.words, r.g2))), r.(g2 := r.g2 + 2))
    else if |i.bytes| - r.g < 1 then Failed
    else
      var shift, s := i.mv[i.bytes[r.g]], r.(g := r.g + 1);
      if c == 4 && |i.words| - s.g2 < 2 then Failed
      else if !InPicture(i, at + shift, log2w, log2h) then Failed
      else if c == 4 then Block(Leaf(Copy(shift, Word16(i.words, s.g2))), s.(g2 := s.g2 + 2))
      else Block(Leaf(Copy(shift, 0)), s)
  }

  /** One side of a block after a split, and where the second half starts. */
  function Half(log2: int, split: bool): int {
    if split then log2 - 1 else log2
  }

  function Beyond(pos: nat, log2: int, split: bool): nat
    requires log2 > 0 || !split
  {
    if split then pos + Side(log2 - 1) else pos
  }

  function Both(rows: bool, a: Parsed, b: Parsed): Parsed {
    if a.Failed? || b.Failed? then Failed else Block(Split(rows, a.tree, b.tree), b.rest)
  }

  /** The tree for a block at (x, y), and the readers behind it. */
  function ParseBlock(i: Picture, r: Readers, x: nat, y: nat, log2w: int, log2h: int): Parsed
    requires Splittable(log2w, log2h)
    decreases log2w + log2h, i
  {
    if |i.bits| - r.gb < 1 then Failed
    else
      var (c, n) := TypeOf(i, r.gb, log2w, log2h);
      var r1 := r.(gb := r.gb + n);
      if c == 1 || c == 2 then
        var w, h := Half(log2w, c == 2), Half(log2h, c == 1);
        var a := ParseBlock(i, r1, x, y, w, h);
        if a.Failed? then Failed
        else Both(c == 1, a, ParseBlock(i, a.rest, Beyond(x, log2w, c == 2), Beyond(y, log2h, c == 1), w, h))
      else ParseLeaf(i, r1, c, x, y, log2w, log2h)
  }

  // ---------- the pixels of a block ----------

  /** The tree fits a block of this size at (x, y), and its copies read inside the picture. */
  ghost predicate Sound(i: Picture, t: Tree, x: nat, y: nat, log2w: int, log2h: int)
    decreases t
  {
    && Splittable(log2w, log2h)
    && match t
       case Leaf(op) => SoundOp(i, op, x, y, log2w, log2h)
       case Split(rows, a, b) =>
         var w, h := Half(log2w, !rows), Half(log2h, rows);
         && Splittable(w, h)
         && Sound(i, a, x, y, w, h)
         && Sound(i, b, Beyond(x, log2w, !rows), Beyond(y, log2h, rows), w, h)
  }

  ghost predicate SoundOp(i: Picture, op: Op, x: nat, y: nat, log2w: nat, log2h: nat) {
    && (op.Copy? ==> InPicture(i, Index(i.stride, x, y) + op.shift, log2w, log2h))
    && (op.Pair? ==> log2w + log2h == 1)
  }

  lemma {:induction false} LeafIsSound(i: Picture, r: Readers, c: nat, x: nat, y: nat, log2w: nat, log2h: nat)
    requires Splittable(log2w, log2h) && c <= 6 && c != 1 && c != 2 && (c == 6 ==> log2w + log2h == 1)
    ensures var p := ParseLeaf(i, r, c, x, y, log2w, log2h); p.Block? ==> Sound(i, p.tree, x, y, log2w, log2h)
  {
  }

  /** Whatever the streams hold, a block that parses is a sound tree. */
  lemma {:induction false} ParsedIsSound(i: Picture, r: Readers, x: nat, y: nat, log2w: int, log2h: int)
    requires Splittable(log2w, log2h)
    requires ParseBlock(i, r, x, y, log2w, log2h).Block?
    ensures Sound(i, ParseBlock(i, r, x, y, log2w, log2h).tree, x, y, log2w, log2h)
    decreases log2w + log2h
  {
    var (c, n) := TypeOf(i, r.gb, log2w, log2h);
    var r1 := r.(gb := r.gb + n);
    if c == 1 || c == 2 {
      var w, h := Half(log2w, c == 2), Half(log2h, c == 1);
      ParsedIsSound(i, r1, x, y, w, h);
      ParsedIsSound(i, ParseBlock(i, r1, x, y, w, h).rest, Beyond(x, log2w, c == 2), Beyond(y, log2h, c == 1), w, h);
    } else {
      LeafIsSound(i, r1, c, x, y, log2w, log2h);
    }
  }

  /** One copied pixel. Blocks wider than one pixel are processed in pairs by one 32-bit addition, so
      a carry out of the even pixel reaches the odd one. */
  function Added(last: seq<pixel>, s: int, odd: bool, dc: pixel): pixel
    requires 0 <= s < |last| && (odd ==> s > 0)
  {
    (last[s] as int + dc as int + if odd && last[s - 1] as int + dc as int >= 0x1_0000 then 1 else 0) % 0x1_0000
  }

  /** The block at (x, y) of this size covers pixel (px, py). */
  ghost predicate In(px: nat, py: nat, x: nat, y: nat, log2w: nat, log2h: nat) {
    x <= px < x + Side(log2w) && y <= py < y + Side(log2h)
  }

  /** Pixel (px, py) of a leaf at (x, y), where the old pixel was `was`. */
  ghost function OpPixel(i: Picture, last: seq<pixel>, op: Op, x: nat, y: nat, log2w: nat, log2h: nat,
                         px: nat, py: nat, was: pixel): pixel
    requires |last| == Pixels(i) && In(px, py, x, y, log2w, log2h)
    requires SoundOp(i, op, x, y, log2w, log2h)
  {
    match op
    case Keep => was
    case Fill(color) => color
    case Pair(p, q) => if px == x && py == y then p else q
    case Copy(shift, dc) =>
      SourcePixels(i, Index(i.stride, x, y) + shift, log2w, log2h, px - x, py - y);
      Added(last, Index(i.stride, x, y) + shift + Index(i.stride, px - x, py - y), (px - x) % 2 == 1, dc)
  }

  lemma {:induction false} SourcePixels(i: Picture, src: int, log2w: nat, log2h: nat, dx: nat, dy: nat)
    requires InPicture(i, src, log2w, log2h) && dx < Side(log2w) && dy < Side(log2h)
    ensures 0 <= src + Index(i.stride, dx, dy) < Pixels(i)
    ensures dx > 0 ==> src + Index(i.stride, dx, dy) > 0
  {
    InPictureIff(i, src, log2w, log2h);
    if dx > 0 {
      assert Index(i.stride, dx - 1, dy) + 1 == Index(i.stride, dx, dy);
    }
  }

  /** A copied pixel is the one that stands, in the previous frame, at its own place moved by the motion:
      unchanged without dc, and else with dc added, along with the carry out of the even pixel that
      shares its word. */
  lemma {:induction false} CopyMoves(i: Picture, last: seq<pixel>, shift: int, dc: pixel, x: nat, y: nat, log2w: nat,
                                     log2h: nat, px: nat, py: nat, was: pixel)
    requires |last| == Pixels(i) && In(px, py, x, y, log2w, log2h) && SoundOp(i, Copy(shift, dc), x, y, log2w, log2h)
    ensures var p, odd, now := Index(i.stride, px, py) + shift, (px - x) % 2 == 1,
                               OpPixel(i, last, Copy(shift, dc), x, y, log2w, log2h, px, py, was);
            && 0 <= p < |last| && (odd ==> p > 0)
            && now as int == (last[p] as int + dc as int + if odd && last[p - 1] as int + dc as int > 0xFFFF then 1 else 0) % 0x1_0000
            && (dc == 0 ==> now == last[p])
  {
    SourcePixels(i, Index(i.stride, x, y) + shift, log2w, log2h, px - x, py - y);
    RowsAdd(i.stride, y, py - y);
  }

  // ---------- the leaves partition the block ----------

  datatype Area = Area(x: nat, y: nat, log2w: nat, log2h: nat, op: Op) {
    ghost predicate Covers(px: nat, py: nat) {
      In(px, py, x, y, log2w, log2h)
    }
  }

  ghost function Leaves(t: Tree, x: nat, y: nat, log2w: int, log2h: int): seq<Area>
    requires Shaped(t, log2w, log2h)
    decreases t
  {
    match t
    case Leaf(op) => [Area(x, y, log2w, log2h, op)]
    case Split(rows, a, b) =>
      var w, h := Half(log2w, !rows), Half(log2h, rows);
      Leaves(a, x, y, w, h) + Leaves(b, Beyond(x, log2w, !rows), Beyond(y, log2h, rows), w, h)
  }

  /** The tree never splits more often than the block size allows. */
  ghost predicate Shaped(t: Tree, log2w: int, log2h: int)
    decreases t
  {
    && 0 <= log2w <= 3 && 0 <= log2h <= 3
    && match t
       case Leaf(_) => true
       case Split(rows, a, b) =>
         Shaped(a, Half(log2w, !rows), Half(log2h, rows)) && Shaped(b, Half(log2w, !rows), Half(log2h, rows))
  }

  lemma {:induction false} SoundIsShaped(i: Picture, t: Tree, x: nat, y: nat, log2w: int, log2h: int)
    requires Sound(i, t, x, y, log2w, log2h)
    ensures Shaped(t, log2w, log2h)
    decreases t
  {
    if t.Split? {
      var w, h := Half(log2w, !t.rows), Half(log2h, t.rows);
      SoundIsShaped(i, t.first, x, y, w, h);
      SoundIsShaped(i, t.second, Beyond(x, log2w, !t.rows), Beyond(y, log2h, t.rows), w, h);
    }
  }

  /** The two halves of a split lie in the block, do not overlap, and make it up. */
  lemma {:induction false} Halves(rows: bool, x: nat, y: nat, log2w: int, log2h: int, px: nat, py: nat)
    requires 0 <= log2w <= 3 && 0 <= log2h <= 3 && if rows then log2h > 0 else log2w > 0
    ensures var w, h := Half(log2w, !rows), Half(log2h, rows);
            var first, second := In(px, py, x, y, w, h), In(px, py, Beyond(x, log2w, !rows), Beyond(y, log2h, rows), w, h);
            && (In(px, py, x, y, log2w, log2h) <==> first || second)
            && !(first && second)
  {
  }

  /** No leaf reaches outside the block. */
  lemma {:induction false} LeafInside(t: Tree, x: nat, y: nat, log2w: int, log2h: int, k: nat, px: nat, py: nat)
    requires Shaped(t, log2w, log2h)
    requires k < |Leaves(t, x, y, log2w, log2h)| && Leaves(t, x, y, log2w, log2h)[k].Covers(px, py)
    ensures In(px, py, x, y, log2w, log2h)
    decreases t
  {
    if t.Split? {
      var w, h := Half(log2w, !t.rows), Half(log2h, t.rows);
      var x', y' := Beyond(x, log2w, !t.rows), Beyond(y, log2h, t.rows);
      Halves(t.rows, x, y, log2w, log2h, px, py);
      var n := |Leaves(t.first, x, y, w, h)|;
      if k < n {
        LeafInside(t.first, x, y, w, h, k, px, py);
      } else {
        LeafInside(t.second, x', y', w, h, k - n, px, py);
      }
    }
  }

  ghost predicate AllInside(ls: seq<Area>, x: nat, y: nat, log2w: nat, log2h: nat) {
    forall k, px: nat, py: nat | 0 <= k < |ls| && ls[k].Covers(px, py) :: In(px, py, x, y, log2w, log2h)
  }

  lemma {:induction false} LeavesInside(t: Tree, x: nat, y: nat, log2w: int, log2h: int)
    requires Shaped(t, log2w, log2h)
    ensures AllInside(Leaves(t, x, y, log2w, log2h), x, y, log2w, log2h)
  {
    var l := Leaves(t, x, y, log2w, log2h);
    forall k, px: nat, py: nat | 0 <= k < |l| && l[k].Covers(px, py)
      ensures In(px, py, x, y, log2w, log2h)
    {
      LeafInside(t, x, y, log2w, log2h, k, px, py);
    }
  }

  ghost predicate OnlyCover(l: seq<Area>, k: nat, px: nat, py: nat) {
    && k < |l| && l[k].Covers(px, py)
    && forall m | 0 <= m < |l| && l[m].Covers(px, py) :: m == k
  }

  ghost predicate NoneCovers(l: seq<Area>, px: nat, py: nat) {
    forall m | 0 <= m < |l| :: !l[m].Covers(px, py)
  }

  lemma {:induction false} CoverLeft(a: seq<Area>, b: seq<Area>, k: nat, px: nat, py: nat)
    requires OnlyCover(a, k, px, py) && NoneCovers(b, px, py)
    ensures OnlyCover(a + b, k, px, py)
  {
  }

  lemma {:induction false} CoverRight(a: seq<Area>, b: seq<Area>, k: nat, px: nat, py: nat)
    requires NoneCovers(a, px, py) && OnlyCover(b, k, px, py)
    ensures OnlyCover(a + b, |a| + k, px, py)
  {
    assert (a + b)[|a| + k] == b[k];
  }

  lemma {:induction false} OutsideUncovered(t: Tree, x: nat, y: nat, log2w: int, log2h: int, px: nat, py: nat)
    requires Shaped(t, log2w, log2h) && !In(px, py, x, y, log2w, log2h)
    ensures NoneCovers(Leaves(t, x, y, log2w, log2h), px, py)
  {
    if m :| 0 <= m < |Leaves(t, x, y, log2w, log2h)| && Leaves(t, x, y, log2w, log2h)[m].Covers(px, py) {
      LeafInside(t, x, y, log2w, log2h, m, px, py);
    }
  }

  /** Every pixel of the block lies in exactly one leaf. */
  lemma {:induction false} LeavesPartition(t: Tree, x: nat, y: nat, log2w: int, log2h: int, px: nat, py: nat)
    returns (k: nat)
    requires Shaped(t, log2w, log2h) && In(px, py, x, y, log2w, log2h)
    ensures OnlyCover(Leaves(t, x, y, log2w, log2h), k, px, py)
    decreases t
  {
    if t.Leaf? {
      k := 0;
    } else {
      var w, h := Half(log2w, !t.rows), Half(log2h, t.rows);
      var x', y' := Beyond(x, log2w, !t.rows), Beyond(y, log2h, t.rows);
      Halves(t.rows, x, y, log2w, log2h, px, py);
      var la, lb := Leaves(t.first, x, y, w, h), Leaves(t.second, x', y', w, h);
      if In(px, py, x, y, w, h) {
        k := LeavesPartition(t.first, x, y, w, h, px, py);
        OutsideUncovered(t.second, x', y', w, h, px, py);
        CoverLeft(la, lb, k, px, py);
      } else {
        k := LeavesPartition(t.second, x', y', w, h, px, py);
        OutsideUncovered(t.first, x, y, w, h, px, py);
        CoverRight(la, lb, k, px, py);
        k := |la| + k;
      }
    }
  }

  // ---------- painting a frame ----------

  /** The pixel at (px, py) of a frame buffer. */
  ghost function At(i: Picture, frame: seq<pixel>, px: nat, py: nat): pixel
    requires |frame| == Pixels(i) && px < i.stride && py < i.height
  {
    IndexInside(i, px, py);
    frame[Index(i.stride, px, py)]
  }

  lemma {:induction false} IndexInside(i: Picture, px: nat, py: nat)
    requires px < i.stride && py < i.height
    ensures Index(i.stride, px, py) < Pixels(i)
  {
    RowsIncrease(i.stride, py, i.height - 1);
  }

  ghost predicate Frames(i: Picture, last: seq<pixel>, before: seq<pixel>, after: seq<pixel>) {
    |last| == |before| == |after| == Pixels(i)
  }

  /** Every pixel of a leaf has become what its operation makes of the previous frame and of the old
      pixel. */
  ghost predicate AreaPainted(i: Picture, last: seq<pixel>, before: seq<pixel>, after: seq<pixel>, l: Area)
    requires Frames(i, last, before, after)
  {
    && SoundOp(i, l.op, l.x, l.y, l.log2w, l.log2h)
    && forall px: nat, py: nat | px < i.stride && py < i.height && l.Covers(px, py) ::
         At(i, after, px, py)
         == OpPixel(i, last, l.op, l.x, l.y, l.log2w, l.log2h, px, py, At(i, before, px, py))
  }

  ghost predicate Painted(i: Picture, last: seq<pixel>, before: seq<pixel>, after: seq<pixel>, ls: seq<Area>)
    requires Frames(i, last, before, after)
  {
    forall k | 0 <= k < |ls| :: AreaPainted(i, last, before, after, ls[k])
  }

  /** Nothing outside the block has changed. */
  ghost predicate Untouched(i: Picture, before: seq<pixel>, after: seq<pixel>, x: nat, y: nat, log2w: nat, log2h: nat)
    requires |before| == |after| == Pixels(i)
  {
    forall px: nat, py: nat | px < i.stride && py < i.height && !In(px, py, x, y, log2w, log2h) ::
      At(i, after, px, py) == At(i, before, px, py)
  }

  /** Painting one block and then a disjoint one paints both. */
  lemma {:induction false} PaintBoth(i: Picture, last: seq<pixel>, before: seq<pixel>, mid: seq<pixel>, after: seq<pixel>,
                  ls: seq<Area>, x: nat, y: nat, ms: seq<Area>, x': nat, y': nat, log2w: nat, log2h: nat)
    requires Frames(i, last, before, mid) && Frames(i, last, mid, after)
    requires Painted(i, last, before, mid, ls) && Untouched(i, before, mid, x, y, log2w, log2h)
    requires Painted(i, last, mid, after, ms) && Untouched(i, mid, after, x', y', log2w, log2h)
    requires forall px: nat, py: nat :: !In(px, py, x, y, log2w, log2h) || !In(px, py, x', y', log2w, log2h)
    requires AllInside(ls, x, y, log2w, log2h) && AllInside(ms, x', y', log2w, log2h)
    ensures Painted(i, last, before, after, ls + ms)
  {
    forall k | 0 <= k < |ls + ms|
      ensures AreaPainted(i, last, before, after, (ls + ms)[k])
    {
      if k < |ls| {
        assert AreaPainted(i, last, before, mid, ls[k]);
      } else {
        assert AreaPainted(i, last, mid, after, ms[k - |ls|]);
      }
    }
  }

  // ---------- whole frames ----------

  datatype ParsedFrame = BadFrame | GoodFrame(leaves: seq<Area>)

  ghost function Prepend(ls: seq<Area>, p: ParsedFrame): ParsedFrame {
    if p.BadFrame? then p else GoodFrame(ls + p.leaves)
  }

  lemma {:induction false} PrependTwice(ls: seq<Area>, ms: seq<Area>, p: ParsedFrame)
    ensures Prepend(ls, Prepend(ms, p)) == Prepend(ls + ms, p)
  {
    if p.GoodFrame? {
      assert ls + (ms + p.leaves) == (ls + ms) + p.leaves;
    }
  }

  lemma {:induction false} PrependNothing(p: ParsedFrame)
    ensures Prepend([], p) == p
  {
    if p.GoodFrame? {
      assert [] + p.leaves == p.leaves;
    }
  }

  /** The leaves of the 8x8 blocks from (x, y) on, row by row. */
  ghost function ParseFrom(i: Picture, r: Readers, x: nat, y: nat): ParsedFrame
    decreases i.height - y, i.stride - x
  {
    if y >= i.height then GoodFrame([])
    else if x >= i.stride then ParseFrom(i, r, 0, y + 8)
    else
      var p := ParseBlock(i, r, x, y, 3, 3);
      if p.Failed? then BadFrame
      else
        ParsedIsSound(i, r, x, y, 3, 3);
        SoundIsShaped(i, p.tree, x, y, 3, 3);
        Prepend(Leaves(p.tree, x, y, 3, 3), ParseFrom(i, p.rest, x + 8, y))
  }

  lemma {:induction false} NoBlocksLeft(i: Picture, r: Readers, y: nat, ls: seq<Area>)
    requires y >= i.height
    ensures Prepend(ls, ParseFrom(i, r, 0, y)) == GoodFrame(ls)
  {
    assert ls + [] == ls;
  }

  /** The part of the frame that lies before block (x, y). */
  ghost predicate Before(px: nat, py: nat, x: nat, y: nat) {
    py < y || (py < y + 8 && px < x)
  }

  ghost predicate WholeBlocks(i: Picture) {
    i.stride % 8 == 0 && i.height % 8 == 0
  }

  lemma {:induction false} FirstBlock(i: Picture, r: Readers, x: nat, y: nat)
    requires x < i.stride && y < i.height && ParseFrom(i, r, x, y).GoodFrame?
    ensures var p := ParseBlock(i, r, x, y, 3, 3);
            && p.Block? && Shaped(p.tree, 3, 3) && ParseFrom(i, p.rest, x + 8, y).GoodFrame?
            && ParseFrom(i, r, x, y).leaves == Leaves(p.tree, x, y, 3, 3) + ParseFrom(i, p.rest, x + 8, y).leaves
  {
    ParsedIsSound(i, r, x, y, 3, 3);
    SoundIsShaped(i, ParseBlock(i, r, x, y, 3, 3).tree, x, y, 3, 3);
  }

  /** Every pixel that the blocks from (x, y) on cover lies in exactly one of their leaves. */
  lemma {:induction false} FramePartitionFrom(i: Picture, r: Readers, x: nat, y: nat, px: nat, py: nat) returns (k: nat)
    requires WholeBlocks(i) && x % 8 == 0 && y % 8 == 0 && x <= i.stride && y <= i.height
    requires ParseFrom(i, r, x, y).GoodFrame? && px < i.stride && py < i.height
    ensures if Before(px, py, x, y) then NoneCovers(ParseFrom(i, r, x, y).leaves, px, py)
            else OnlyCover(ParseFrom(i, r, x, y).leaves, k, px, py)
    decreases i.height - y, i.stride - x
  {
    k := 0;
    if y < i.height {
      if x >= i.stride {
        k := FramePartitionFrom(i, r, 0, y + 8, px, py);
      } else {
        var p := ParseBlock(i, r, x, y, 3, 3);
        FirstBlock(i, r, x, y);
        k := FramePartitionFrom(i, p.rest, x + 8, y, px, py);
        k := CoverBlock(p.tree, ParseFrom(i, p.rest, x + 8, y).leaves, x, y, px, py, k);
      }
    }
  }

  lemma {:induction false} CoverBlock(t: Tree, rest: seq<Area>, x: nat, y: nat, px: nat, py: nat, k: nat) returns (m: nat)
    requires Shaped(t, 3, 3)
    requires if Before(px, py, x + 8, y) then NoneCovers(rest, px, py) else OnlyCover(rest, k, px, py)
    ensures if Before(px, py, x, y) then NoneCovers(Leaves(t, x, y, 3, 3) + rest, px, py)
            else OnlyCover(Leaves(t, x, y, 3, 3) + rest, m, px, py)
  {
    var here := Leaves(t, x, y, 3, 3);
    m := 0;
    if In(px, py, x, y, 3, 3) {
      m := LeavesPartition(t, x, y, 3, 3, px, py);
      CoverLeft(here, rest, m, px, py);
    } else {
      OutsideUncovered(t, x, y, 3, 3, px, py);
      if Before(px, py, x, y) {
        NoneInBoth(here, rest, px, py);
      } else {
        CoverRight(here, rest, k, px, py);
        m := |here| + k;
      }
    }
  }

  lemma {:induction false} NoneInBoth(a: seq<Area>, b: seq<Area>, px: nat, py: nat)
    requires NoneCovers(a, px, py) && NoneCovers(b, px, py)
    ensures NoneCovers(a + b, px, py)
  {
  }

  /** The leaves of a parsed frame partition the frame. */
  lemma {:induction false} FramePartition(i: Picture, px: nat, py: nat) returns (k: nat)
    requires WholeBlocks(i) && px < i.stride && py < i.height
    requires ParseFrom(i, Readers(0, 0, 0), 0, 0).GoodFrame?
    ensures OnlyCover(ParseFrom(i, Readers(0, 0, 0), 0, 0).leaves, k, px, py)
  {
    k := FramePartitionFrom(i, Readers(0, 0, 0), 0, 0, px, py);
  }

  /** Painting one more block keeps the blocks before it painted and the rest of the frame old. */
  lemma {:induction false} PaintNext(i: Picture, last: seq<pixel>, before: seq<pixel>, mid: seq<pixel>, after: seq<pixel>,
                  ls: seq<Area>, ms: seq<Area>, x: nat, y: nat)
    requires Frames(i, last, before, mid) && Frames(i, last, mid, after)
    requires Painted(i, last, before, mid, ls) && Painted(i, last, mid, after, ms)
    requires Untouched(i, mid, after, x, y, 3, 3) && AllInside(ms, x, y, 3, 3)
    requires forall px: nat, py: nat | px < i.stride && py < i.height && !Before(px, py, x, y) ::
               At(i, mid, px, py) == At(i, before, px, py) && NoneCovers(ls, px, py)
    requires forall px: nat, py: nat | In(px, py, x, y, 3, 3) :: !Before(px, py, x, y)
    ensures Painted(i, last, before, after, ls + ms)
  {
    forall k | 0 <= k < |ls + ms|
      ensures AreaPainted(i, last, before, after, (ls + ms)[k])
    {
      if k < |ls| {
        assert AreaPainted(i, last, before, mid, ls[k]);
      } else {
        assert AreaPainted(i, last, mid, after, ms[k - |ls|]);
      }
    }
  }
}
