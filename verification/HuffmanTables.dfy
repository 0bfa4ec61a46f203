/** read_huffman_tables: the byte ranges of the frequency table, the merge loop in place over the
    arrays, and the walk along the parent links that produces the (bits, length) tables. */
module HuffmanTables {
  import opened Basics
  import opened Sums
  import opened HuffmanForest
  import opened HuffmanDepth
  import opened HuffmanCodes

  const NO_PARENT := -1

  // ---------- the forest as values ----------

  /** The three arrays of the merge loop. */
  datatype Forest = Forest(w: Weights, flag: seq<int>, up: seq<int>) {
    /** Parent links lead to later nodes; nodes from j on are unused and live nodes are roots. */
    ghost predicate Linked(j: nat) {
      && |flag| == NODES && |up| == NODES && Unused(w, j)
      && (forall x | 0 <= x < NODES :: up[x] == NO_PARENT || (x < up[x] < j && 0 <= flag[x] <= 1))
      && (forall x | 0 <= x < NODES && w[x] > 0 :: up[x] == NO_PARENT)
    }
  }

  function Join(f: Forest, j: nat): (g: Forest)
    requires f.Linked(j) && CanMerge(f.w) && j < NODES
    ensures g.Linked(j + 1)
  {
    MergeShape(f.w, j);
    var a, b := First(f.w), Second(f.w);
    Forest(Merge(f.w, j), f.flag[a := 0][b := 1], f.up[a := j][b := j])
  }

  function Grow(f: Forest, j: nat): (g: Forest)
    requires f.Linked(j)
    ensures g.Linked(NODES)
    decreases NODES - j, f
  {
    if j == NODES || !CanMerge(f.w) then f else Grow(Join(f, j), j + 1)
  }

  /** The flags met on the way from the root of x down to x. */
  function PathTo(f: Forest, x: nat): seq<bool>
    requires f.Linked(NODES) && x < NODES
    decreases NODES - x, f
  {
    if f.up[x] == NO_PARENT then [] else PathTo(f, f.up[x]) + [f.flag[x] == 1]
  }

  lemma {:induction false} GrowKeepsChildren(f: Forest, j: nat, x: nat)
    requires f.Linked(j) && x < NODES && f.up[x] != NO_PARENT
    ensures Grow(f, j).up[x] == f.up[x] && Grow(f, j).flag[x] == f.flag[x]
    decreases NODES - j
  {
    if j < NODES && CanMerge(f.w) {
      MergeShape(f.w, j);
      GrowKeepsChildren(Join(f, j), j + 1, x);
    }
  }

  /** The path through the finished arrays is the code word that the merges define. */
  lemma {:induction false} PathIsCode(f: Forest, j: nat, x: nat)
    requires f.Linked(j) && x < j && f.up[x] == NO_PARENT
    ensures PathTo(Grow(f, j), x) == Codes(f.w, j)[x]
    decreases NODES - j
  {
    if j < NODES && CanMerge(f.w) {
      MergeShape(f.w, j);
      var g := Join(f, j);
      JoinLinks(f, j, x);
      if x == First(f.w) || x == Second(f.w) {
        GrowKeepsChildren(g, j + 1, x);
        PathIsCode(g, j + 1, j);
      } else {
        PathIsCode(g, j + 1, x);
      }
    }
  }

  lemma {:induction false} JoinLinks(f: Forest, j: nat, x: nat)
    requires f.Linked(j) && CanMerge(f.w) && x < j < NODES
    ensures var a, b, g := First(f.w), Second(f.w), Join(f, j);
            && g.up[j] == NO_PARENT && g.w == Merge(f.w, j)
            && g.up[x] == (if x == a || x == b then j else f.up[x])
            && (x == a ==> g.flag[x] == 0) && (x == b ==> g.flag[x] == 1)
  {
    MergeShape(f.w, j);
  }

  lemma {:induction false} RootsLeft(f: Forest, j: nat)
    requires f.Linked(j) && LiveCount(f.w) >= 1
    ensures LiveCount(Grow(f, j).w) == Roots(LiveCount(f.w), NODES - j)
    decreases NODES - j
  {
    CanMergeIff(f.w);
    if j < NODES && CanMerge(f.w) {
      MergeDropsOne(f.w, j);
      RootsLeft(Join(f, j), j + 1);
    }
  }

  /** The merge loop ends with a single tree exactly when at most 256 of the 257 symbols occur. */
  lemma {:induction false} OneRootIff(f: Forest)
    requires f.Linked(SYMBOLS) && Frequencies(f.w)
    ensures LiveCount(Grow(f, SYMBOLS).w) == 1 <==> LiveCount(f.w) <= 256
  {
    SomeLive(f.w);
    RootsLeft(f, SYMBOLS);
  }

  // ---------- bit patterns ----------

  /** A code word as a number, its first bit the most significant one. */
  function Value(word: seq<bool>): nat {
    if word == [] then 0 else 2 * Value(word[..|word| - 1]) + if word[|word| - 1] then 1 else 0
  }

  lemma {:induction false} ValuePrepend(bit: bool, word: seq<bool>)
    ensures Value([bit] + word) == (if bit then Pow2(|word|) else 0) + Value(word)
  {
    if word == [] {
      assert [bit][..0] == [];
    } else {
      var n := |word| - 1;
      ValuePrepend(bit, word[..n]);
      assert ([bit] + word)[..n + 1] == [bit] + word[..n];
    }
  }

  lemma {:induction false} ValueBelow(word: seq<bool>)
    ensures Value(word) < Pow2(|word|)
  {
    if word != [] {
      ValueBelow(word[..|word| - 1]);
    }
  }

  /** v >> n */
  function ShiftRight(v: nat, n: nat): nat {
    if n == 0 then v else ShiftRight(v / 2, n - 1)
  }

  /** p is a prefix of q exactly when shifting the surplus bits out of q leaves the value of p. */
  lemma {:induction false} PrefixIsShift(p: seq<bool>, q: seq<bool>)
    requires |p| <= |q|
    ensures p <= q <==> ShiftRight(Value(q), |q| - |p|) == Value(p)
    decreases |q|
  {
    if |p| == |q| {
      ValueInjective(p, q);
    } else {
      var n := |q| - 1;
      PrefixIsShift(p, q[..n]);
      assert p <= q <==> p <= q[..n] by {
        assert forall i | 0 <= i < |p| :: q[i] == q[..n][i];
      }
      assert Value(q) / 2 == Value(q[..n]);
    }
  }

  lemma {:induction false} ValueInjective(p: seq<bool>, q: seq<bool>)
    requires |p| == |q|
    ensures p <= q <==> Value(p) == Value(q)
  {
    if p == q {
    } else {
      var n := |p| - 1;
      ValueInjective(p[..n], q[..n]);
      assert p == p[..n] + [p[n]] && q == q[..n] + [q[n]];
    }
  }

  // ---------- the merge loop, in place ----------

  /** The scan of one pass: the two running minima end as the two lightest nodes. */
  method TwoSmallest(frequency: array<nat>, j: nat)
    returns (minFreq0: nat, minFreq1: nat, smallest0: nat, smallest1: nat)
    requires frequency.Length == NODES && Unused(frequency[..], j)
    requires forall x | 0 <= x < NODES :: frequency[x] < UNSET
    ensures minFreq1 == UNSET <==> !CanMerge(frequency[..])
    ensures minFreq1 != UNSET ==>
              && smallest0 == First(frequency[..]) && smallest1 == Second(frequency[..])
              && minFreq0 == frequency[smallest0] && minFreq1 == frequency[smallest1]
  {
    minFreq0, minFreq1 := UNSET, UNSET;
    smallest0, smallest1 := 0, 0;
    ghost var w: Weights := frequency[..];
    for i := 0 to j
      invariant minFreq0 == UNSET || (smallest0 < NODES && minFreq0 == w[smallest0])
      invariant minFreq1 == UNSET || (smallest1 < NODES && minFreq1 == w[smallest1])
      invariant minFreq0 <= minFreq1
      invariant IsLightest(w, i, -1, if minFreq0 == UNSET then NODES else smallest0)
      invariant IsLightest(w, i, if minFreq0 == UNSET then -1 else smallest0,
                           if minFreq1 == UNSET then NODES else smallest1)
    {
      if frequency[i] == 0 {
        continue;
      }
      if frequency[i] < minFreq1 {
        if frequency[i] < minFreq0 {
          minFreq1 := minFreq0;
          smallest1 := smallest0;
          minFreq0 := frequency[i];
          smallest0 := i;
        } else {
          minFreq1 := frequency[i];
          smallest1 := i;
        }
      }
    }
  }

  /** One pass once the two lightest nodes are known. */
  method JoinLightest(frequency: array<nat>, flag: array<int>, up: array<int>, j: nat,
                      minFreq0: nat, minFreq1: nat, smallest0: nat, smallest1: nat, ghost f: Forest)
    requires flag != up && frequency.Length == flag.Length == up.Length == NODES
    requires f.w == frequency[..] && f.flag == flag[..] && f.up == up[..]
    requires f.Linked(j) && CanMerge(f.w) && j < NODES
    requires smallest0 == First(f.w) && smallest1 == Second(f.w)
    requires minFreq0 == f.w[smallest0] && minFreq1 == f.w[smallest1]
    modifies frequency, flag, up
    ensures frequency[..] == Join(f, j).w
    ensures flag[..] == Join(f, j).flag
    ensures up[..] == Join(f, j).up
  {
    MergeShape(f.w, j);
    frequency[j] := minFreq0 + minFreq1;
    flag[smallest0] := 0;
    flag[smallest1] := 1;
    up[smallest1] := j;
    up[smallest0] := j;
    frequency[smallest1] := 0;
    frequency[smallest0] := 0;
  }

  /** The whole merge loop leaves the arrays as Grow says. */
  method MergeLoop(frequency: array<nat>, flag: array<int>, up: array<int>, ghost start: Forest)
    requires flag != up && frequency.Length == flag.Length == up.Length == NODES
    requires start.w == frequency[..] && start.flag == flag[..] && start.up == up[..]
    requires start.Linked(SYMBOLS) && Sum(start.w) < UNSET
    modifies frequency, flag, up
    ensures frequency[..] == Grow(start, SYMBOLS).w
    ensures flag[..] == Grow(start, SYMBOLS).flag
    ensures up[..] == Grow(start, SYMBOLS).up
  {
    var j := SYMBOLS;
    ghost var f := start;
    while j < NODES
      invariant SYMBOLS <= j <= NODES
      invariant f.w == frequency[..] && f.flag == flag[..] && f.up == up[..]
      invariant f.Linked(j) && Grow(f, j) == Grow(start, SYMBOLS)
      invariant Sum(f.w) < UNSET
    {
      EachBelowTotal(f.w);
      var minFreq0, minFreq1, smallest0, smallest1 := TwoSmallest(frequency, j);
      if minFreq1 == UNSET {
        break;
      }
      MergeKeepsTotal(f.w, j);
      JoinLightest(frequency, flag, up, j, minFreq0, minFreq1, smallest0, smallest1, f);
      f := Join(f, j);
      j := j + 1;
    }
  }

  lemma {:induction false} EachBelowTotal(w: Weights)
    ensures forall x | 0 <= x < NODES :: w[x] <= Sum(w)
  {
    var t: seq<int> := w;
    forall x | 0 <= x < NODES
      ensures w[x] <= Sum(w)
    {
      SumAtLeastTerm(t, x);
    }
  }

  // ---------- walking up from each symbol ----------

  /** The walk from one symbol to its root; overflow is the logged "vlc length overflow". */
  method WalkUp(flag: array<int>, up: array<int>, symbol: nat, ghost f: Forest)
    returns (bits: nat, len: nat, overflow: bool)
    requires flag.Length == up.Length == NODES && f.flag == flag[..] && f.up == up[..]
    requires f.Linked(NODES) && symbol < SYMBOLS
    requires |PathTo(f, symbol)| <= MAX_LENGTH
    ensures len == |PathTo(f, symbol)| && bits == Value(PathTo(f, symbol)) && !overflow
  {
    var node := symbol;
    bits, len, overflow := 0, 0, false;
    ghost var word: seq<bool> := [];
    while up[node] != NO_PARENT
      invariant node < NODES && len == |word| && bits == Value(word) && !overflow
      invariant PathTo(f, symbol) == PathTo(f, node) + word
      decreases NODES - node
    {
      ghost var bit := flag[node] == 1;
      ValuePrepend(bit, word);
      assert PathTo(f, node) + word == PathTo(f, up[node]) + ([bit] + word);
      bits := bits + flag[node] * Pow2(len);
      len := len + 1;
      word := [bit] + word;
      if len > 31 {
        overflow := true;
      }
      node := up[node];
    }
    assert [] + word == word;
  }

  /** The finished tables: a dead symbol has length 0, and every other symbol the value and the
      length of its code word, which fit 22 bits. */
  ghost predicate TablesFor(w: Weights, bitsTab: seq<int>, lenTab: seq<int>)
    requires Frequencies(w)
  {
    && |bitsTab| == |lenTab| == SYMBOLS
    && forall s | 0 <= s < SYMBOLS ::
         && lenTab[s] == |CodeBook(w)[s]| <= MAX_LENGTH
         && bitsTab[s] == Value(CodeBook(w)[s])
  }

  /** The loop over the symbols, on the finished forest f. */
  method CodeTables(flag: array<int>, up: array<int>, bitsTab: array<int>, lenTab: array<int>,
                    ghost w: Weights, ghost f: Forest)
    returns (overflow: bool)
    requires flag.Length == up.Length == NODES && f.flag == flag[..] && f.up == up[..] && f.Linked(NODES)
    requires bitsTab.Length == lenTab.Length == SYMBOLS
    requires {flag, up} !! {bitsTab, lenTab} && bitsTab != lenTab
    requires Frequencies(w) && forall s | 0 <= s < SYMBOLS :: PathTo(f, s) == CodeBook(w)[s]
    modifies bitsTab, lenTab
    ensures TablesFor(w, bitsTab[..], lenTab[..])
    ensures !overflow
  {
    overflow := false;
    for j := 0 to SYMBOLS
      invariant flag[..] == f.flag && up[..] == f.up && !overflow
      invariant forall s | 0 <= s < j :: lenTab[s] == |PathTo(f, s)| <= MAX_LENGTH && bitsTab[s] == Value(PathTo(f, s))
    {
      CodeWordsAreShort(w, j);
      var bits, len, long := WalkUp(flag, up, j, f);
      bitsTab[j] := bits;
      lenTab[j] := len;
      overflow := overflow || long;
    }
  }

  /** Everything after the frequencies have been read. */
  method BuildTables(frequency: array<nat>) returns (bitsTab: array<int>, lenTab: array<int>, overflow: bool)
    requires frequency.Length == NODES && Frequencies(frequency[..])
    modifies frequency
    ensures fresh(bitsTab) && fresh(lenTab)
    ensures TablesFor(old(frequency[..]), bitsTab[..], lenTab[..])
    ensures !overflow
  {
    ghost var w: Weights := frequency[..];
    var flag := new int[NODES](_ => 0);
    var up := new int[NODES](_ => NO_PARENT);
    bitsTab, lenTab := new int[SYMBOLS], new int[SYMBOLS];
    ghost var start := Forest(w, flag[..], up[..]);
    TotalAtMost(w);
    MergeLoop(frequency, flag, up, start);
    ghost var f := Grow(start, SYMBOLS);
    forall s | 0 <= s < SYMBOLS
      ensures PathTo(f, s) == CodeBook(w)[s]
    {
      PathIsCode(start, SYMBOLS, s);
    }
    overflow := CodeTables(flag, up, bitsTab, lenTab, w, f);
  }

  /** Read most significant bit first, no symbol's (bits, length) pair starts another's: exactly
      when at most 256 of the 257 symbols occur. */
  lemma {:induction false} TablesArePrefixFreeIff(w: Weights, bitsTab: seq<int>, lenTab: seq<int>)
    requires Frequencies(w) && TablesFor(w, bitsTab, lenTab)
    ensures (forall s, t | 0 <= s < SYMBOLS && 0 <= t < SYMBOLS && s != t && w[s] > 0 && w[t] > 0 && lenTab[s] <= lenTab[t] ::
               ShiftRight(bitsTab[t], lenTab[t] - lenTab[s]) != bitsTab[s])
            <==> LiveCount(w) <= 256
  {
    var c := CodeBook(w);
    PrefixFreeIff(w);
    forall s, t | 0 <= s < SYMBOLS && 0 <= t < SYMBOLS && lenTab[s] <= lenTab[t]
      ensures c[s] <= c[t] <==> ShiftRight(bitsTab[t], lenTab[t] - lenTab[s]) == bitsTab[s]
    {
      PrefixIsShift(c[s], c[t]);
    }
    if PrefixFree(w, c) {
      forall s, t | 0 <= s < SYMBOLS && 0 <= t < SYMBOLS && s != t && w[s] > 0 && w[t] > 0 && lenTab[s] <= lenTab[t]
        ensures ShiftRight(bitsTab[t], lenTab[t] - lenTab[s]) != bitsTab[s]
      {
        assert !(c[s] <= c[t]);
      }
    } else {
      var s, t :| 0 <= s < NODES && 0 <= t < NODES && s != t && w[s] > 0 && w[t] > 0 && c[s] <= c[t];
      assert s < SYMBOLS && t < SYMBOLS && lenTab[s] <= lenTab[t];
    }
  }
}
