/** How blocks are written into the three streams of a P frame, and that the parser reads exactly that. */
module PBlockFormat {
  import opened Basics
  import opened Sums
  import opened BlockTypes
  import opened PBlockSpec

  /** A block as the format has it: a code that does not split, with the motion byte and the words that
      this code takes, or two halves. */
  datatype Node = Plain(code: nat, motion: byte, first: pixel, second: pixel) | Halved(rows: bool, a: Node, b: Node)

  // ---------- writing ----------

  /** The entry of code c in the table for this version and block size. */
  function Entry(i: Picture, c: nat, log2w: int, log2h: int): (nat, nat)
    requires Splittable(log2w, log2h) && c <= 6
  {
    Size2IndexIs(log2h, log2w);
    var v, k := if i.version >= 2 then 0 else 1, SIZE_TO_INDEX[log2h][log2w];
    assert |i.tables[v]| == 4 && Usable(i.tables[v][k], k);
    i.tables[v][k][c]
  }

  function CodeBits(i: Picture, c: nat, log2w: int, log2h: int): seq<bool>
    requires Splittable(log2w, log2h) && c <= 6
  {
    Digits(Entry(i, c, log2w, log2h).0, Entry(i, c, log2w, log2h).1)
  }

  function LowByteFirst(p: pixel): seq<byte> {
    [p % 256, p / 256]
  }

  predicate HasSize(node: Node, log2w: int, log2h: int)
    decreases node
  {
    && Splittable(log2w, log2h)
    && match node
       case Plain(c, _, _, _) => c <= 6 && c != 1 && c != 2
       case Halved(rows, a, b) =>
         var w, h := Half(log2w, !rows), Half(log2h, rows);
         HasSize(a, w, h) && HasSize(b, w, h)
  }

  function Bits(i: Picture, node: Node, log2w: int, log2h: int): seq<bool>
    requires HasSize(node, log2w, log2h)
    decreases node
  {
    match node
    case Plain(c, _, _, _) => CodeBits(i, c, log2w, log2h)
    case Halved(rows, a, b) =>
      var w, h := Half(log2w, !rows), Half(log2h, rows);
      CodeBits(i, if rows then 1 else 2, log2w, log2h) + (Bits(i, a, w, h) + Bits(i, b, w, h))
  }

  /** Codes 0 and 4 take a motion byte. */
  function MotionBytes(node: Node): seq<byte> {
    match node
    case Plain(c, motion, _, _) => if c == 0 || c == 4 then [motion] else []
    case Halved(_, a, b) => MotionBytes(a) + MotionBytes(b)
  }

  /** Codes 4 and 5 take one word, code 6 two. */
  function Words(node: Node): seq<byte> {
    match node
    case Plain(c, _, p, q) =>
      if c == 4 || c == 5 then LowByteFirst(p) else if c == 6 then LowByteFirst(p) + LowByteFirst(q) else []
    case Halved(_, a, b) => Words(a) + Words(b)
  }

  /** Where the last code of a written block starts among its bits. */
  function LastStart(i: Picture, node: Node, log2w: int, log2h: int): (n: nat)
    requires HasSize(node, log2w, log2h)
    ensures n <= |Bits(i, node, log2w, log2h)|
    decreases node
  {
    match node
    case Plain(_, _, _, _) => 0
    case Halved(rows, a, b) =>
      var w, h := Half(log2w, !rows), Half(log2h, rows);
      |CodeBits(i, if rows then 1 else 2, log2w, log2h)| + |Bits(i, a, w, h)| + LastStart(i, b, w, h)
  }

  /** What a written block means. */
  function Meaning(i: Picture, node: Node): Tree {
    match node
    case Plain(c, motion, p, q) =>
      Leaf(if c == 0 then Copy(i.mv[motion], 0)
           else if c == 3 then (if i.version >= 2 then Keep else Copy(0, 0))
           else if c == 4 then Copy(i.mv[motion], p)
           else if c == 5 then Fill(p)
           else Pair(p, q))
    case Halved(rows, a, b) => Split(rows, Meaning(i, a), Meaning(i, b))
  }

  /** The code exists for blocks of this size. */
  predicate HasCode(i: Picture, c: nat, log2w: int, log2h: int)
    requires Splittable(log2w, log2h) && c <= 6
  {
    var e := Entry(i, c, log2w, log2h);
    e.1 > 0 && e.0 < Pow2(e.1)
  }

  /** The block can be written: its codes exist, and its motion stays inside the picture. */
  predicate Legal(i: Picture, node: Node, x: nat, y: nat, log2w: int, log2h: int)
    requires HasSize(node, log2w, log2h)
    decreases node
  {
    match node
    case Plain(c, motion, _, _) =>
      && HasCode(i, c, log2w, log2h)
      && (c == 0 || c == 4 ==> InPicture(i, Index(i.stride, x, y) + i.mv[motion], log2w, log2h))
    case Halved(rows, a, b) =>
      var w, h := Half(log2w, !rows), Half(log2h, rows);
      && HasCode(i, if rows then 1 else 2, log2w, log2h)
      && Legal(i, a, x, y, w, h) && Legal(i, b, Beyond(x, log2w, !rows), Beyond(y, log2h, rows), w, h)
  }

  // ---------- what stands in the streams ----------

  predicate HasBits(bits: seq<bool>, pos: nat, s: seq<bool>)
    decreases |s|, pos
  {
    s == [] || (BitAt(bits, pos) == (if s[0] then 1 else 0) && HasBits(bits, pos + 1, s[1..]))
  }

  predicate Has(bytes: seq<byte>, pos: nat, s: seq<byte>)
    decreases |s|, pos
  {
    s == [] || (pos < |bytes| && bytes[pos] == s[0] && Has(bytes, pos + 1, s[1..]))
  }

  /** The three streams go on with this block, padding bits included. */
  ghost predicate Stands(i: Picture, r: Readers, node: Node, log2w: int, log2h: int)
    requires HasSize(node, log2w, log2h)
  {
    && HasBits(i.bits, r.gb, Bits(i, node, log2w, log2h))
    && Has(i.bytes, r.g, MotionBytes(node)) && Has(i.words, r.g2, Words(node))
  }

  function Behind(i: Picture, r: Readers, node: Node, log2w: int, log2h: int): Readers
    requires HasSize(node, log2w, log2h)
  {
    Readers(r.gb + |Bits(i, node, log2w, log2h)|, r.g + |MotionBytes(node)|, r.g2 + |Words(node)|)
  }

  lemma {:induction false} HasBitsBoth(bits: seq<bool>, pos: nat, s: seq<bool>, t: seq<bool>)
    ensures HasBits(bits, pos, s + t) <==> HasBits(bits, pos, s) && HasBits(bits, pos + |s|, t)
    decreases s
  {
    if s == [] {
      assert s + t == t;
    } else {
      assert (s + t)[1..] == s[1..] + t;
      HasBitsBoth(bits, pos + 1, s[1..], t);
    }
  }

  lemma {:induction false} HasBitsThree(bits: seq<bool>, pos: nat, s: seq<bool>, t: seq<bool>, u: seq<bool>)
    ensures HasBits(bits, pos, s + (t + u))
            <==> HasBits(bits, pos, s) && HasBits(bits, pos + |s|, t) && HasBits(bits, pos + |s| + |t|, u)
  {
    HasBitsBoth(bits, pos, s, t + u);
    HasBitsBoth(bits, pos + |s|, t, u);
  }

  lemma {:induction false} HasBoth(bytes: seq<byte>, pos: nat, s: seq<byte>, t: seq<byte>)
    ensures Has(bytes, pos, s + t) <==> Has(bytes, pos, s) && Has(bytes, pos + |s|, t)
    decreases s
  {
    if s == [] {
      assert s + t == t;
    } else {
      assert (s + t)[1..] == s[1..] + t;
      HasBoth(bytes, pos + 1, s[1..], t);
    }
  }

  // ---------- codes ----------

  /** Reading n bits gives v exactly where the digits of v stand. */
  lemma {:induction false} PeekDigits(bits: seq<bool>, pos: nat, v: nat, n: nat)
    ensures Peek(bits, pos, n) == v <==> v < Pow2(n) && HasBits(bits, pos, Digits(v, n))
  {
    if n > 0 {
      PeekDigits(bits, pos, v / 2, n - 1);
      HasBitsBoth(bits, pos, Digits(v / 2, n - 1), [v % 2 == 1]);
      assert [v % 2 == 1][1..] == [];
    }
  }

  /** The parser finds code c exactly where its bits stand. */
  lemma {:induction false} TypeOfIff(i: Picture, gb: nat, c: nat, log2w: int, log2h: int)
    requires Splittable(log2w, log2h) && c <= 6
    ensures TypeOf(i, gb, log2w, log2h).0 == c
            <==> HasCode(i, c, log2w, log2h) && HasBits(i.bits, gb, CodeBits(i, c, log2w, log2h))
    ensures TypeOf(i, gb, log2w, log2h).0 == c ==> TypeOf(i, gb, log2w, log2h).1 == |CodeBits(i, c, log2w, log2h)|
  {
    Size2IndexIs(log2h, log2w);
    var v, k := if i.version >= 2 then 0 else 1, SIZE_TO_INDEX[log2h][log2w];
    assert |i.tables[v]| == 4 && Usable(i.tables[v][k], k);
    var tab := i.tables[v][k];
    assert OneMatch(tab, i.bits, gb);
    var (d, n) := TypeOf(i, gb, log2w, log2h);
    assert Matches(tab[d], i.bits, gb);
    PeekDigits(i.bits, gb, tab[c].0, tab[c].1);
  }

  lemma {:induction false} ByteIff(bytes: seq<byte>, pos: nat, b: byte)
    ensures Has(bytes, pos, [b]) <==> pos < |bytes| && bytes[pos] == b
  {
    assert [b][1..] == [];
  }

  lemma {:induction false} WordIff(words: seq<byte>, pos: nat, p: pixel)
    ensures Has(words, pos, LowByteFirst(p)) <==> pos + 2 <= |words| && Word16(words, pos) == p
  {
    HasBoth(words, pos, [p % 256], [p / 256]);
    ByteIff(words, pos, p % 256);
    ByteIff(words, pos + 1, p / 256);
    assert LowByteFirst(p) == [p % 256] + [p / 256];
  }

  // ---------- leaves ----------

  /** The block lies in the frame. */
  predicate InFrame(i: Picture, x: nat, y: nat, log2w: int, log2h: int)
    requires Splittable(log2w, log2h)
  {
    x + Side(log2w) <= i.stride && y + Side(log2h) <= i.height
  }

  lemma {:induction false} PlainReads(i: Picture, r: Readers, node: Node, x: nat, y: nat, log2w: int, log2h: int)
    requires HasSize(node, log2w, log2h) && node.Plain? && Legal(i, node, x, y, log2w, log2h)
    requires InFrame(i, x, y, log2w, log2h)
    requires Has(i.bytes, r.g, MotionBytes(node)) && Has(i.words, r.g2, Words(node))
    ensures ParseLeaf(i, r, node.code, x, y, log2w, log2h)
            == Block(Meaning(i, node), Readers(r.gb, r.g + |MotionBytes(node)|, r.g2 + |Words(node)|))
  {
    CoLocatedInPicture(i, x, y, log2w, log2h);
    ByteIff(i.bytes, r.g, node.motion);
    WordIff(i.words, r.g2, node.first);
    HasBoth(i.words, r.g2, LowByteFirst(node.first), LowByteFirst(node.second));
    WordIff(i.words, r.g2 + 2, node.second);
  }

  lemma {:induction false} PlainReadsBack(i: Picture, r: Readers, c: nat, x: nat, y: nat, log2w: int, log2h: int)
    returns (node: Node)
    requires Splittable(log2w, log2h) && c <= 6 && c != 1 && c != 2 && HasCode(i, c, log2w, log2h)
    requires ParseLeaf(i, r, c, x, y, log2w, log2h).Block?
    ensures node.Plain? && node.code == c && Legal(i, node, x, y, log2w, log2h)
    ensures Has(i.bytes, r.g, MotionBytes(node)) && Has(i.words, r.g2, Words(node))
    ensures ParseLeaf(i, r, c, x, y, log2w, log2h)
            == Block(Meaning(i, node), Readers(r.gb, r.g + |MotionBytes(node)|, r.g2 + |Words(node)|))
  {
    var motion: byte := if c == 0 || c == 4 then i.bytes[r.g] else 0;
    var p: pixel := if c >= 4 then Word16(i.words, r.g2) else 0;
    var q: pixel := if c == 6 then Word16(i.words, r.g2 + 2) else 0;
    node := Plain(c, motion, p, q);
    ByteIff(i.bytes, r.g, motion);
    WordIff(i.words, r.g2, p);
    HasBoth(i.words, r.g2, LowByteFirst(p), LowByteFirst(q));
    WordIff(i.words, r.g2 + 2, q);
  }

  // ---------- blocks ----------

  /** The streams hold this block at r, and its last code starts before the end of the bits. */
  ghost predicate Holds(i: Picture, r: Readers, node: Node, x: nat, y: nat, log2w: int, log2h: int) {
    && HasSize(node, log2w, log2h) && Legal(i, node, x, y, log2w, log2h)
    && Stands(i, r, node, log2w, log2h) && r.gb + LastStart(i, node, log2w, log2h) < |i.bits|
  }

  function AfterCode(i: Picture, r: Readers, c: nat, log2w: int, log2h: int): Readers
    requires Splittable(log2w, log2h) && c <= 6
  {
    r.(gb := r.gb + |CodeBits(i, c, log2w, log2h)|)
  }

  lemma {:induction false} BehindHalves(i: Picture, r: Readers, node: Node, log2w: int, log2h: int)
    requires HasSize(node, log2w, log2h) && node.Halved?
    ensures var w, h := Half(log2w, !node.rows), Half(log2h, node.rows);
            var r1 := AfterCode(i, r, if node.rows then 1 else 2, log2w, log2h);
            Behind(i, r, node, log2w, log2h) == Behind(i, Behind(i, r1, node.a, w, h), node.b, w, h)
  {
  }

  lemma {:induction false} HalvedBits(i: Picture, pos: nat, node: Node, log2w: int, log2h: int)
    requires HasSize(node, log2w, log2h) && node.Halved?
    ensures var w, h := Half(log2w, !node.rows), Half(log2h, node.rows);
            var code := CodeBits(i, if node.rows then 1 else 2, log2w, log2h);
            HasBits(i.bits, pos, Bits(i, node, log2w, log2h))
            <==> HasBits(i.bits, pos, code) && HasBits(i.bits, pos + |code|, Bits(i, node.a, w, h))
                 && HasBits(i.bits, pos + |code| + |Bits(i, node.a, w, h)|, Bits(i, node.b, w, h))
  {
    var w, h := Half(log2w, !node.rows), Half(log2h, node.rows);
    HasBitsThree(i.bits, pos, CodeBits(i, if node.rows then 1 else 2, log2w, log2h), Bits(i, node.a, w, h), Bits(i, node.b, w, h));
  }

  /** A split block is held where its code stands, and its halves are held behind it. */
  lemma {:induction false} HalvesStand(i: Picture, r: Readers, node: Node, log2w: int, log2h: int)
    requires HasSize(node, log2w, log2h) && node.Halved?
    ensures var c := if node.rows then 1 else 2;
            var w, h := Half(log2w, !node.rows), Half(log2h, node.rows);
            var r1 := AfterCode(i, r, c, log2w, log2h);
            Stands(i, r, node, log2w, log2h)
            <==> HasBits(i.bits, r.gb, CodeBits(i, c, log2w, log2h))
                 && Stands(i, r1, node.a, w, h) && Stands(i, Behind(i, r1, node.a, w, h), node.b, w, h)
  {
    HalvedBits(i, r.gb, node, log2w, log2h);
    HasBoth(i.bytes, r.g, MotionBytes(node.a), MotionBytes(node.b));
    HasBoth(i.words, r.g2, Words(node.a), Words(node.b));
  }

  lemma {:induction false} ParsePlain(i: Picture, r: Readers, c: nat, x: nat, y: nat, log2w: int, log2h: int)
    requires Splittable(log2w, log2h) && r.gb < |i.bits| && c <= 6 && c != 1 && c != 2
    requires TypeOf(i, r.gb, log2w, log2h) == (c, |CodeBits(i, c, log2w, log2h)|)
    ensures ParseBlock(i, r, x, y, log2w, log2h) == ParseLeaf(i, AfterCode(i, r, c, log2w, log2h), c, x, y, log2w, log2h)
  {
  }

  lemma {:induction false} ParseSplit(i: Picture, r: Readers, rows: bool, x: nat, y: nat, log2w: int, log2h: int)
    requires Splittable(log2w, log2h) && r.gb < |i.bits|
    ensures var c := if rows then 1 else 2;
            TypeOf(i, r.gb, log2w, log2h) == (c, |CodeBits(i, c, log2w, log2h)|) ==>
              var w, h, r1 := Half(log2w, !rows), Half(log2h, rows), AfterCode(i, r, c, log2w, log2h);
              && Splittable(w, h)
              && var a := ParseBlock(i, r1, x, y, w, h);
                 ParseBlock(i, r, x, y, log2w, log2h)
                 == if a.Failed? then Failed
                    else Both(rows, a, ParseBlock(i, a.rest, Beyond(x, log2w, !rows), Beyond(y, log2h, rows), w, h))
  {
  }

  lemma {:induction false} HalvesAreHeld(i: Picture, r: Readers, node: Node, x: nat, y: nat, log2w: int, log2h: int)
    requires HasSize(node, log2w, log2h) && node.Halved? && Holds(i, r, node, x, y, log2w, log2h)
    ensures var c, rows := if node.rows then 1 else 2, node.rows;
            var w, h, r1 := Half(log2w, !rows), Half(log2h, rows), AfterCode(i, r, c, log2w, log2h);
            && HasCode(i, c, log2w, log2h) && HasBits(i.bits, r.gb, CodeBits(i, c, log2w, log2h))
            && r.gb < |i.bits| && Holds(i, r1, node.a, x, y, w, h)
            && Holds(i, Behind(i, r1, node.a, w, h), node.b, Beyond(x, log2w, !rows), Beyond(y, log2h, rows), w, h)
  {
    HalvesStand(i, r, node, log2w, log2h);
  }

  lemma {:induction false} HeldHalvesHold(i: Picture, r: Readers, node: Node, x: nat, y: nat, log2w: int, log2h: int)
    requires HasSize(node, log2w, log2h) && node.Halved? && r.gb < |i.bits|
    requires var c, rows := if node.rows then 1 else 2, node.rows;
             var w, h, r1 := Half(log2w, !rows), Half(log2h, rows), AfterCode(i, r, c, log2w, log2h);
             && HasCode(i, c, log2w, log2h) && HasBits(i.bits, r.gb, CodeBits(i, c, log2w, log2h))
             && Holds(i, r1, node.a, x, y, w, h)
             && Holds(i, Behind(i, r1, node.a, w, h), node.b, Beyond(x, log2w, !rows), Beyond(y, log2h, rows), w, h)
    ensures Holds(i, r, node, x, y, log2w, log2h)
  {
    HalvesStand(i, r, node, log2w, log2h);
  }

  /** Reading back a written block gives what it means, and leaves the readers behind it. */
  lemma {:induction false} RoundTrip(i: Picture, r: Readers, node: Node, x: nat, y: nat, log2w: int, log2h: int)
    requires Holds(i, r, node, x, y, log2w, log2h) && InFrame(i, x, y, log2w, log2h)
    ensures ParseBlock(i, r, x, y, log2w, log2h) == Block(Meaning(i, node), Behind(i, r, node, log2w, log2h))
    decreases node
  {
    var c := if node.Plain? then node.code else if node.rows then 1 else 2;
    var r1 := AfterCode(i, r, c, log2w, log2h);
    TypeOfIff(i, r.gb, c, log2w, log2h);
    if node.Plain? {
      ParsePlain(i, r, c, x, y, log2w, log2h);
      PlainReads(i, r1, node, x, y, log2w, log2h);
    } else {
      var w, h := Half(log2w, !node.rows), Half(log2h, node.rows);
      BehindHalves(i, r, node, log2w, log2h);
      HalvesAreHeld(i, r, node, x, y, log2w, log2h);
      ParseSplit(i, r, node.rows, x, y, log2w, log2h);
      RoundTrip(i, r1, node.a, x, y, w, h);
      RoundTrip(i, Behind(i, r1, node.a, w, h), node.b, Beyond(x, log2w, !node.rows), Beyond(y, log2h, node.rows), w, h);
    }
  }

  /** Whatever parses is a written block. */
  lemma {:induction false} ReadsBack(i: Picture, r: Readers, x: nat, y: nat, log2w: int, log2h: int) returns (node: Node)
    requires Splittable(log2w, log2h) && InFrame(i, x, y, log2w, log2h)
    requires ParseBlock(i, r, x, y, log2w, log2h).Block?
    ensures Holds(i, r, node, x, y, log2w, log2h)
    ensures ParseBlock(i, r, x, y, log2w, log2h) == Block(Meaning(i, node), Behind(i, r, node, log2w, log2h))
    decreases log2w + log2h, 1
  {
    var c := TypeOf(i, r.gb, log2w, log2h).0;
    TypeOfIff(i, r.gb, c, log2w, log2h);
    if c == 1 || c == 2 {
      node := SplitReadsBack(i, r, c == 1, x, y, log2w, log2h);
    } else {
      ParsePlain(i, r, c, x, y, log2w, log2h);
      node := PlainReadsBack(i, AfterCode(i, r, c, log2w, log2h), c, x, y, log2w, log2h);
    }
  }

  lemma {:induction false} SplitReadsBack(i: Picture, r: Readers, rows: bool, x: nat, y: nat, log2w: int, log2h: int)
    returns (node: Node)
    requires Splittable(log2w, log2h) && InFrame(i, x, y, log2w, log2h) && r.gb < |i.bits|
    requires ParseBlock(i, r, x, y, log2w, log2h).Block? && TypeOf(i, r.gb, log2w, log2h).0 == if rows then 1 else 2
    ensures Holds(i, r, node, x, y, log2w, log2h)
    ensures ParseBlock(i, r, x, y, log2w, log2h) == Block(Meaning(i, node), Behind(i, r, node, log2w, log2h))
    decreases log2w + log2h, 0
  {
    var c := if rows then 1 else 2;
    var w, h, r1 := Half(log2w, !rows), Half(log2h, rows), AfterCode(i, r, c, log2w, log2h);
    TypeOfIff(i, r.gb, c, log2w, log2h);
    ParseSplit(i, r, rows, x, y, log2w, log2h);
    var a := ReadsBack(i, r1, x, y, w, h);
    var b := ReadsBack(i, Behind(i, r1, a, w, h), Beyond(x, log2w, !rows), Beyond(y, log2h, rows), w, h);
    node := Halved(rows, a, b);
    HeldHalvesHold(i, r, node, x, y, log2w, log2h);
    BehindHalves(i, r, node, log2w, log2h);
  }

  /** A block parses to a tree exactly when the streams hold it in writing. */
  lemma {:induction false} ParsesIff(i: Picture, r: Readers, x: nat, y: nat, log2w: int, log2h: int, t: Tree, rest: Readers)
    requires Splittable(log2w, log2h) && InFrame(i, x, y, log2w, log2h)
    ensures ParseBlock(i, r, x, y, log2w, log2h) == Block(t, rest)
            <==> exists node :: Holds(i, r, node, x, y, log2w, log2h) && Meaning(i, node) == t
                                && Behind(i, r, node, log2w, log2h) == rest
  {
    if ParseBlock(i, r, x, y, log2w, log2h) == Block(t, rest) {
      var node := ReadsBack(i, r, x, y, log2w, log2h);
    }
    if node :| Holds(i, r, node, x, y, log2w, log2h) && Meaning(i, node) == t
               && Behind(i, r, node, log2w, log2h) == rest {
      RoundTrip(i, r, node, x, y, log2w, log2h);
    }
  }

  // ---------- frames ----------

  /** The streams hold a row of 8x8 blocks, one behind the other and from left to right; the first one
      is at (x, y). */
  ghost predicate RowHolds(i: Picture, r: Readers, row: seq<Node>, x: nat, y: nat)
    decreases row
  {
    row == [] || (Holds(i, r, row[0], x, y, 3, 3) && RowHolds(i, Behind(i, r, row[0], 3, 3), row[1..], x + 8, y))
  }

  ghost function BehindRow(i: Picture, r: Readers, row: seq<Node>, x: nat, y: nat): Readers
    requires RowHolds(i, r, row, x, y)
    decreases row
  {
    if row == [] then r else BehindRow(i, Behind(i, r, row[0], 3, 3), row[1..], x + 8, y)
  }

  /** The leaves of a row of blocks, each at its place. */
  ghost function RowLeaves(i: Picture, r: Readers, row: seq<Node>, x: nat, y: nat): seq<Area>
    requires RowHolds(i, r, row, x, y)
    decreases row
  {
    if row == [] then []
    else
      MeaningIsShaped(i, row[0], 3, 3);
      Leaves(Meaning(i, row[0]), x, y, 3, 3) + RowLeaves(i, Behind(i, r, row[0], 3, 3), row[1..], x + 8, y)
  }

  /** Such rows below each other, from y on. */
  ghost predicate RowsHold(i: Picture, r: Readers, rows: seq<seq<Node>>, y: nat)
    decreases rows
  {
    rows == [] || (RowHolds(i, r, rows[0], 0, y) && RowsHold(i, BehindRow(i, r, rows[0], 0, y), rows[1..], y + 8))
  }

  ghost function RowsLeaves(i: Picture, r: Readers, rows: seq<seq<Node>>, y: nat): seq<Area>
    requires RowsHold(i, r, rows, y)
    decreases rows
  {
    if rows == [] then []
    else RowLeaves(i, r, rows[0], 0, y) + RowsLeaves(i, BehindRow(i, r, rows[0], 0, y), rows[1..], y + 8)
  }

  lemma {:induction false} MeaningIsShaped(i: Picture, node: Node, log2w: int, log2h: int)
    requires HasSize(node, log2w, log2h)
    ensures Shaped(Meaning(i, node), log2w, log2h)
    decreases node
  {
    if node.Halved? {
      var w, h := Half(log2w, !node.rows), Half(log2h, node.rows);
      MeaningIsShaped(i, node.a, w, h);
      MeaningIsShaped(i, node.b, w, h);
    }
  }

  lemma {:induction false} ParseNext(i: Picture, r: Readers, node: Node, x: nat, y: nat)
    requires Holds(i, r, node, x, y, 3, 3) && x + 8 <= i.stride && y + 8 <= i.height
    ensures Shaped(Meaning(i, node), 3, 3)
    ensures ParseFrom(i, r, x, y)
            == Prepend(Leaves(Meaning(i, node), x, y, 3, 3), ParseFrom(i, Behind(i, r, node, 3, 3), x + 8, y))
  {
    MeaningIsShaped(i, node, 3, 3);
    RoundTrip(i, r, node, x, y, 3, 3);
  }

  lemma {:induction false} RowRoundTrip(i: Picture, r: Readers, row: seq<Node>, x: nat, y: nat)
    requires RowHolds(i, r, row, x, y)
    requires x + 8 * |row| == i.stride && y + 8 <= i.height
    ensures ParseFrom(i, r, x, y)
            == Prepend(RowLeaves(i, r, row, x, y), ParseFrom(i, BehindRow(i, r, row, x, y), 0, y + 8))
    decreases row
  {
    if row == [] {
      PrependNothing(ParseFrom(i, r, 0, y + 8));
    } else {
      var next := Behind(i, r, row[0], 3, 3);
      ParseNext(i, r, row[0], x, y);
      RowRoundTrip(i, next, row[1..], x + 8, y);
      PrependTwice(Leaves(Meaning(i, row[0]), x, y, 3, 3), RowLeaves(i, next, row[1..], x + 8, y),
                   ParseFrom(i, BehindRow(i, next, row[1..], x + 8, y), 0, y + 8));
    }
  }

  /** A frame written row by row parses to the leaves of its blocks, each block at its place. */
  lemma {:induction false} FrameRoundTrip(i: Picture, r: Readers, rows: seq<seq<Node>>, y: nat)
    requires RowsHold(i, r, rows, y) && y + 8 * |rows| == i.height
    requires forall k | 0 <= k < |rows| :: 8 * |rows[k]| == i.stride
    ensures ParseFrom(i, r, 0, y) == GoodFrame(RowsLeaves(i, r, rows, y))
    decreases rows
  {
    if rows != [] {
      RowRoundTrip(i, r, rows[0], 0, y);
      FrameRoundTrip(i, BehindRow(i, r, rows[0], 0, y), rows[1..], y + 8);
    }
  }
}
