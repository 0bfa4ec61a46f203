/** The merge loop of read_huffman_tables, on values: which two nodes are merged, what the weights
    become, and the code words that the finished forest gives to the nodes. */
module HuffmanForest {
  import opened Sums

  const SYMBOLS := 257
  const NODES := 512
  /** More than any weight: the start value of the two running minima. */
  const UNSET := 256 * 256

  type Weights = w: seq<nat> | |w| == NODES witness seq(NODES, _ => 0)
  type CodeWords = c: seq<seq<bool>> | |c| == NODES witness seq(NODES, _ => [])

  /** r is the lightest live node below n other than skip, the lower index winning ties; NODES
      stands for none. */
  ghost predicate IsLightest(w: seq<nat>, n: nat, skip: int, r: nat)
    requires n <= |w|
  {
    if r == NODES then forall x | 0 <= x < n && x != skip :: w[x] == 0
    else
      && r < n && r != skip && w[r] > 0
      && forall x | 0 <= x < n && x != skip && w[x] > 0 :: w[r] < w[x] || (w[r] == w[x] && r <= x)
  }

  function Lightest(w: Weights, n: nat, skip: int): (r: nat)
    requires n <= NODES
    ensures IsLightest(w, n, skip, r)
  {
    if n == 0 then NODES
    else
      var m := Lightest(w, n - 1, skip);
      if n - 1 == skip || w[n - 1] == 0 || (m < NODES && w[m] <= w[n - 1]) then m else n - 1
  }

  function First(w: Weights): nat {
    Lightest(w, NODES, -1)
  }

  function Second(w: Weights): nat {
    Lightest(w, NODES, First(w))
  }

  predicate CanMerge(w: Weights) {
    Second(w) < NODES
  }

  /** Node j and all later nodes are still unused. */
  ghost predicate Unused(w: Weights, j: nat) {
    SYMBOLS <= j <= NODES && forall x | j <= x < NODES :: w[x] == 0
  }

  lemma {:induction false} MergeShape(w: Weights, j: nat)
    requires Unused(w, j) && CanMerge(w)
    ensures First(w) < j && Second(w) < j && First(w) != Second(w)
    ensures 0 < w[First(w)] <= w[Second(w)]
    ensures forall x | 0 <= x < NODES && x != First(w) && w[x] > 0 :: w[Second(w)] <= w[x]
  {
    assert First(w) != NODES;
  }

  /** One pass of the merge loop: node j takes over the weight of the two lightest live nodes. */
  function Merge(w: Weights, j: nat): (m: Weights)
    requires Unused(w, j) && CanMerge(w) && j < NODES
    ensures Unused(m, j + 1)
  {
    MergeShape(w, j);
    w[First(w) := 0][Second(w) := 0][j := w[First(w)] + w[Second(w)]]
  }

  /** The root-to-node path of every node live at stage j, in the forest that the merges from
      stage j on build: false towards the lighter child of a merge, true towards the heavier. */
  function Codes(w: Weights, j: nat): CodeWords
    requires Unused(w, j)
    decreases NODES - j, w
  {
    if j == NODES || !CanMerge(w) then seq(NODES, _ => [])
    else
      MergeShape(w, j);
      var c := Codes(Merge(w, j), j + 1);
      c[First(w) := c[j] + [false]][Second(w) := c[j] + [true]]
  }

  // ---------- counting live nodes and adding up weights ----------

  function LiveTerms(w: Weights): (t: seq<int>)
    ensures |t| == NODES && forall i | 0 <= i < NODES :: t[i] == if w[i] > 0 then 1 else 0
  {
    seq(NODES, i requires 0 <= i < NODES => if w[i] > 0 then 1 else 0)
  }

  function LiveCount(w: Weights): int {
    Sum(LiveTerms(w))
  }

  lemma {:induction false} MergeKeepsTotal(w: Weights, j: nat)
    requires Unused(w, j) && CanMerge(w) && j < NODES
    ensures Sum(Merge(w, j)) == Sum(w)
  {
    MergeShape(w, j);
    var a, b := First(w), Second(w);
    var s: seq<int> := w;
    SumUpdate(s, a, 0);
    SumUpdate(s[a := 0], b, 0);
    SumUpdate(s[a := 0][b := 0], j, w[a] + w[b]);
    assert s[a := 0][b := 0][j := w[a] + w[b]] == Merge(w, j);
  }

  lemma {:induction false} MergeDropsOne(w: Weights, j: nat)
    requires Unused(w, j) && CanMerge(w) && j < NODES
    ensures LiveCount(Merge(w, j)) == LiveCount(w) - 1
  {
    MergeShape(w, j);
    var a, b, t := First(w), Second(w), LiveTerms(w);
    SumUpdate(t, a, 0);
    SumUpdate(t[a := 0], b, 0);
    SumUpdate(t[a := 0][b := 0], j, 1);
    assert t[a := 0][b := 0][j := 1] == LiveTerms(Merge(w, j));
  }

  /** The merge loop stops early exactly when fewer than two nodes are live. */
  lemma {:induction false} CanMergeIff(w: Weights)
    ensures CanMerge(w) <==> LiveCount(w) >= 2
    ensures LiveCount(w) >= 0
  {
    var t := LiveTerms(w);
    SumNonNegative(t);
    if CanMerge(w) {
      var a, b := First(w), Second(w);
      assert a != NODES;
      SumUpdate(t, a, 0);
      SumAtLeastTerm(t[a := 0], b);
    } else if First(w) == NODES {
      SumZero(t);
    } else {
      SumUpdate(t, First(w), 0);
      SumZero(t[First(w) := 0]);
    }
  }

  /** The weight tables that read_huffman_tables starts from: 256 byte frequencies, the end symbol
      with frequency 1, and no inner node yet. */
  ghost predicate Frequencies(w: Weights) {
    && (forall s | 0 <= s < 256 :: w[s] < 256)
    && w[256] == 1
    && Unused(w, SYMBOLS)
  }

  /** The code words of a frequency table. */
  function CodeBook(w: Weights): CodeWords
    requires Frequencies(w)
  {
    Codes(w, SYMBOLS)
  }
}
