/** The code tables that steer the splitting of P-frame blocks, and the bit reader they are read with. */
module BlockTypes {
  import opened Sums

  /** 1 << log2: the sides of blocks are 1, 2, 4 and 8 pixels. */
  function Side(log2: nat): (r: nat)
    ensures r >= 1
  {
    if log2 == 0 then 1 else if log2 == 1 then 2 else if log2 == 2 then 4 else if log2 == 3 then 8 else Pow2(log2)
  }

  /** Code number k stands at place k: its bits and its length; length 0 means that the code does
      not exist for blocks of this shape. */
  type TypeTable = t: seq<(nat, nat)> | |t| == 7 witness seq(7, _ => (0, 0))

  function BlockTypeTab(version: nat, index: nat): TypeTable
    requires version < 2 && index < 4
  {
    if version == 0 then
      match index
      case 0 => [(0, 1), (2, 2), (6, 3), (14, 4), (30, 5), (31, 5), (0, 0)]
      case 1 => [(0, 1), (0, 0), (2, 2), (6, 3), (14, 4), (15, 4), (0, 0)]
      case 2 => [(0, 1), (2, 2), (0, 0), (6, 3), (14, 4), (15, 4), (0, 0)]
      case _ => [(0, 1), (0, 0), (0, 0), (2, 2), (6, 3), (14, 4), (15, 4)]
    else
      match index
      case 0 => [(1, 2), (4, 3), (5, 3), (0, 2), (6, 3), (7, 3), (0, 0)]
      case 1 => [(1, 2), (0, 0), (2, 2), (0, 2), (6, 3), (7, 3), (0, 0)]
      case 2 => [(1, 2), (2, 2), (0, 0), (0, 2), (6, 3), (7, 3), (0, 0)]
      case _ => [(1, 2), (0, 0), (0, 0), (0, 2), (2, 2), (6, 3), (7, 3)]
  }

  /** The -1 of the source is stored in an unsigned byte. */
  const NO_INDEX := 255

  const SIZE_TO_INDEX: seq<seq<nat>> :=
    [[NO_INDEX, 3, 1, 1],
     [3, 0, 0, 0],
     [2, 0, 0, 0],
     [2, 0, 0, 0]]

  /** The blocks that the decoder may be asked for: from 8x8 down to two pixels. */
  predicate Splittable(log2w: int, log2h: int) {
    0 <= log2w <= 3 && 0 <= log2h <= 3 && log2w + log2h > 0
  }

  /** The place of the table for a block size. */
  function Size2Index(log2h: nat, log2w: nat): nat {
    if log2w == 0 && log2h == 0 then NO_INDEX
    else if log2w > 0 && log2h > 0 then 0
    else if log2h == 0 then (if log2w == 1 then 3 else 1)
    else if log2h == 1 then 3 else 2
  }

  lemma {:induction false} Size2IndexIs(log2h: nat, log2w: nat)
    requires log2h <= 3 && log2w <= 3
    ensures SIZE_TO_INDEX[log2h][log2w] == Size2Index(log2h, log2w)
    ensures Size2Index(log2h, log2w) < 4 <==> Splittable(log2w, log2h)
  {
  }

  // ---------- reading bits ----------

  /** Bit pos of the stream; the padding behind its end is zero. */
  function BitAt(bits: seq<bool>, pos: nat): nat {
    if pos < |bits| && bits[pos] then 1 else 0
  }

  /** The next n bits, the first one most significant. */
  function Peek(bits: seq<bool>, pos: nat, n: nat): nat {
    if n == 0 then 0 else 2 * Peek(bits, pos, n - 1) + BitAt(bits, pos + n - 1)
  }

  predicate Matches(e: (nat, nat), bits: seq<bool>, pos: nat) {
    e.1 > 0 && Peek(bits, pos, e.1) == e.0
  }

  /** The first code from k on whose bits come next; 7 when there is none. */
  function NextCode(tab: TypeTable, bits: seq<bool>, pos: nat, k: nat): (c: nat)
    requires k <= 7
    ensures k <= c <= 7
    ensures c < 7 ==> Matches(tab[c], bits, pos)
    decreases 7 - k, tab
  {
    if k == 7 then 7 else if Matches(tab[k], bits, pos) then k else NextCode(tab, bits, pos, k + 1)
  }

  lemma {:induction false} FiveBits(bits: seq<bool>, pos: nat)
    ensures Peek(bits, pos, 1) == BitAt(bits, pos)
    ensures Peek(bits, pos, 2) == 2 * BitAt(bits, pos) + BitAt(bits, pos + 1)
    ensures Peek(bits, pos, 3) == 2 * Peek(bits, pos, 2) + BitAt(bits, pos + 2)
    ensures Peek(bits, pos, 4) == 2 * Peek(bits, pos, 3) + BitAt(bits, pos + 3)
    ensures Peek(bits, pos, 5) == 2 * Peek(bits, pos, 4) + BitAt(bits, pos + 4)
  {
    assert Peek(bits, pos, 0) == 0;
  }

  /** Which code of a table the next five bits b select. */
  function CodeOf(version: nat, index: nat, b: (nat, nat, nat, nat, nat)): nat
    requires version < 2 && index < 4
  {
    if version == 0 then
      if b.0 == 0 then 0
      else match index
        case 0 => if b.1 == 0 then 1 else if b.2 == 0 then 2 else if b.3 == 0 then 3 else if b.4 == 0 then 4 else 5
        case 1 => if b.1 == 0 then 2 else if b.2 == 0 then 3 else if b.3 == 0 then 4 else 5
        case 2 => if b.1 == 0 then 1 else if b.2 == 0 then 3 else if b.3 == 0 then 4 else 5
        case _ => if b.1 == 0 then 3 else if b.2 == 0 then 4 else if b.3 == 0 then 5 else 6
    else
      if b.0 == 0 then (if b.1 == 0 then 3 else 0)
      else match index
        case 0 => if b.1 == 0 then (if b.2 == 0 then 1 else 2) else if b.2 == 0 then 4 else 5
        case 1 => if b.1 == 0 then 2 else if b.2 == 0 then 4 else 5
        case 2 => if b.1 == 0 then 1 else if b.2 == 0 then 4 else 5
        case _ => if b.1 == 0 then 4 else if b.2 == 0 then 5 else 6
  }

  lemma {:induction false} MatchesIff(version: nat, index: nat, bits: seq<bool>, pos: nat, c: nat)
    requires version < 2 && index < 4 && c < 7
    ensures Matches(BlockTypeTab(version, index)[c], bits, pos)
            <==> c == CodeOf(version, index, (BitAt(bits, pos), BitAt(bits, pos + 1), BitAt(bits, pos + 2),
                                              BitAt(bits, pos + 3), BitAt(bits, pos + 4)))
  {
    FiveBits(bits, pos);
    var e := BlockTypeTab(version, index)[c];
    assert e.1 <= 5;
    assert Matches(e, bits, pos) <==>
      || (e.1 == 1 && Peek(bits, pos, 1) == e.0)
      || (e.1 == 2 && Peek(bits, pos, 2) == e.0)
      || (e.1 == 3 && Peek(bits, pos, 3) == e.0)
      || (e.1 == 4 && Peek(bits, pos, 4) == e.0)
      || (e.1 == 5 && Peek(bits, pos, 5) == e.0);
  }

  ghost predicate OneMatch(tab: TypeTable, bits: seq<bool>, pos: nat) {
    && (exists c :: 0 <= c < 7 && Matches(tab[c], bits, pos))
    && (forall c, d | 0 <= c < 7 && 0 <= d < 7 && Matches(tab[c], bits, pos) && Matches(tab[d], bits, pos) :: c == d)
  }

  /** Whether table number index may offer code c: splits must leave two pixels at least, and two
      literal pixels are only for blocks of two pixels. */
  predicate Offers(index: nat, c: nat) {
    && (c == 1 ==> index == 0 || index == 2)
    && (c == 2 ==> index == 0 || index == 1)
    && (c == 6 ==> index == 3)
  }

  /** All that the decoder needs of a table: whatever bits follow, exactly one code matches, and it
      is one that blocks of this shape may have. */
  ghost predicate Usable(tab: TypeTable, index: nat) {
    && (forall bits, pos: nat :: OneMatch(tab, bits, pos))
    && (forall c | 0 <= c < 7 && tab[c].1 > 0 :: tab[c].1 <= 5 && Offers(index, c))
  }

  ghost predicate AllUsable(t: seq<seq<TypeTable>>) {
    |t| == 2 && forall v, k | 0 <= v < 2 && 0 <= k < 4 :: |t[v]| == 4 && Usable(t[v][k], k)
  }

  /** block_type_vlc after init_vlcs. */
  type Tables = t: seq<seq<TypeTable>> | AllUsable(t) witness Standard()

  /** The tables of the source are usable; nothing else about them matters to the decoder. */
  function Standard(): (t: seq<seq<TypeTable>>)
    ensures AllUsable(t)
    ensures forall v, k | 0 <= v < 2 && 0 <= k < 4 :: |t[v]| == 4 && t[v][k] == BlockTypeTab(v, k)
  {
    forall v, k | 0 <= v < 2 && 0 <= k < 4
      ensures Usable(BlockTypeTab(v, k), k)
    {
      StandardIsUsable(v, k);
    }
    var row := (v: nat) requires v < 2 => seq(4, k requires 0 <= k < 4 => BlockTypeTab(v, k));
    [row(0), row(1)]
  }

  lemma {:induction false} StandardIsUsable(version: nat, index: nat)
    requires version < 2 && index < 4
    ensures Usable(BlockTypeTab(version, index), index)
  {
    var tab := BlockTypeTab(version, index);
    forall bits, pos: nat
      ensures OneMatch(tab, bits, pos)
    {
      forall c | 0 <= c < 7 {
        MatchesIff(version, index, bits, pos, c);
      }
      var c := CodeOf(version, index, (BitAt(bits, pos), BitAt(bits, pos + 1), BitAt(bits, pos + 2),
                                       BitAt(bits, pos + 3), BitAt(bits, pos + 4)));
      assert Matches(tab[c], bits, pos);
    }
  }

  lemma {:induction false} FindsMatch(tab: TypeTable, bits: seq<bool>, pos: nat, k: nat, c: nat)
    requires k <= c < 7 && Matches(tab[c], bits, pos)
    ensures NextCode(tab, bits, pos, k) < 7
    decreases 7 - k
  {
    if k < c {
      FindsMatch(tab, bits, pos, k + 1, c);
    }
  }

  /** The codes that usable tables offer to a block of this size. */
  predicate Allowed(c: nat, log2w: int, log2h: int) {
    && c <= 6
    && (c == 1 ==> Splittable(log2w, log2h - 1))
    && (c == 2 ==> Splittable(log2w - 1, log2h))
    && (c == 6 ==> log2w + log2h == 1)
  }

  /** The next code for a block of this shape, and how many bits it takes: the entry of the block's
      table whose bits come next. */
  function NextType(t: Tables, version: nat, log2w: int, log2h: int, bits: seq<bool>, pos: nat): (r: (nat, nat))
    requires version < 2 && Splittable(log2w, log2h)
    ensures Allowed(r.0, log2w, log2h) && 1 <= r.1 <= 5
    ensures var k := SIZE_TO_INDEX[log2h][log2w];
            && k < 4 && |t[version]| == 4
            && t[version][k][r.0].1 == r.1 && Peek(bits, pos, r.1) == t[version][k][r.0].0
  {
    Size2IndexIs(log2h, log2w);
    assert |t[version]| == 4 && Usable(t[version][Size2Index(log2h, log2w)], Size2Index(log2h, log2w));
    var tab := t[version][Size2Index(log2h, log2w)];
    assert OneMatch(tab, bits, pos);
    assert NextCode(tab, bits, pos, 0) < 7 by {
      var d :| 0 <= d < 7 && Matches(tab[d], bits, pos);
      FindsMatch(tab, bits, pos, 0, d);
    }
    var c := NextCode(tab, bits, pos, 0);
    (c, tab[c].1)
  }
}
