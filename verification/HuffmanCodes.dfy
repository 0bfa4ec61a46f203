/** When the code words of the finished forest form a complete prefix code. */
module HuffmanCodes {
  import opened Sums
  import opened HuffmanForest

  /** No live node's code word is a prefix of another's. */
  ghost predicate PrefixFree(w: Weights, c: CodeWords) {
    forall x, y | 0 <= x < NODES && 0 <= y < NODES && x != y && w[x] > 0 && w[y] > 0 :: !(c[x] <= c[y])
  }

  /** Splitting the word of node j in two keeps a prefix code one, and never makes one. */
  lemma {:induction false} MergePrefixFree(w: Weights, j: nat)
    requires Unused(w, j) && CanMerge(w) && j < NODES
    ensures PrefixFree(w, Codes(w, j)) <==> PrefixFree(Merge(w, j), Codes(Merge(w, j), j + 1))
  {
    MergeShape(w, j);
    var c', c := Codes(Merge(w, j), j + 1), Codes(w, j);
    if x, y :| 0 <= x < NODES && 0 <= y < NODES && x != y && w[x] > 0 && w[y] > 0 && c[x] <= c[y] {
      ClashAfter(w, j, x, y);
    }
    if x, y :| 0 <= x < NODES && 0 <= y < NODES && x != y
               && Merge(w, j)[x] > 0 && Merge(w, j)[y] > 0 && c'[x] <= c'[y] {
      ClashBefore(w, j, x, y);
    }
  }

  lemma {:induction false} ClashAfter(w: Weights, j: nat, x: nat, y: nat)
    requires Unused(w, j) && CanMerge(w) && j < NODES
    requires x < NODES && y < NODES && x != y && w[x] > 0 && w[y] > 0
    requires Codes(w, j)[x] <= Codes(w, j)[y]
    ensures !PrefixFree(Merge(w, j), Codes(Merge(w, j), j + 1))
  {
    MergeShape(w, j);
    var a, b := First(w), Second(w);
    var c', c := Codes(Merge(w, j), j + 1), Codes(w, j);
    var n := |c'[j]|;
    assert c[a] == c'[j] + [false] && c[b] == c'[j] + [true];
    assert c[a][n] != c[b][n];
    var p := if x == a || x == b then j else x;
    var q := if y == a || y == b then j else y;
    assert p != q && c'[p] <= c[x] && c'[q] <= c[y];
    PrefixesCompare(c'[p], c'[q], c[y]);
  }

  lemma {:induction false} ClashBefore(w: Weights, j: nat, x: nat, y: nat)
    requires Unused(w, j) && CanMerge(w) && j < NODES
    requires x < NODES && y < NODES && x != y && Merge(w, j)[x] > 0 && Merge(w, j)[y] > 0
    requires Codes(Merge(w, j), j + 1)[x] <= Codes(Merge(w, j), j + 1)[y]
    ensures !PrefixFree(w, Codes(w, j))
  {
    MergeShape(w, j);
    var a, b := First(w), Second(w);
    var c', c := Codes(Merge(w, j), j + 1), Codes(w, j);
    var n := |c'[j]|;
    assert c[a] == c'[j] + [false] && c[b] == c'[j] + [true];
    if x == j {
      var d := if |c'[y]| > n && c'[y][n] then b else a;
      assert c[y] == c'[y] && (c[d] <= c[y] || c[y] <= c[d]);
    } else {
      var e := if y == j then a else y;
      assert c[x] <= c[e];
    }
  }

  lemma {:induction false} PrefixesCompare(p: seq<bool>, q: seq<bool>, word: seq<bool>)
    requires p <= word && q <= word
    ensures p <= q || q <= p
  {
    if |p| <= |q| {
      assert p == word[..|p|] && q == word[..|q|];
      assert p == q[..|p|];
    } else {
      assert p == word[..|p|] && q == word[..|q|];
      assert q == p[..|q|];
    }
  }

  /** The merge loop has NODES - j merges left; it yields a prefix code exactly when those suffice
      to join all live nodes into one tree. */
  lemma {:induction false} PrefixFreeIffEnoughMerges(w: Weights, j: nat)
    requires Unused(w, j) && LiveCount(w) >= 1
    ensures PrefixFree(w, Codes(w, j)) <==> LiveCount(w) <= 1 + (NODES - j)
    decreases NODES - j
  {
    CanMergeIff(w);
    if j == NODES || !CanMerge(w) {
      if CanMerge(w) {
        MergeShape(w, j);
        var c := Codes(w, j);
        assert c[First(w)] <= c[Second(w)];
      } else {
        assert forall x, y | 0 <= x < NODES && 0 <= y < NODES && w[x] > 0 && w[y] > 0 :: x == y;
      }
    } else {
      MergeDropsOne(w, j);
      MergePrefixFree(w, j);
      PrefixFreeIffEnoughMerges(Merge(w, j), j + 1);
    }
  }

  lemma {:induction false} SomeLive(w: Weights)
    requires Frequencies(w)
    ensures LiveCount(w) >= 1
  {
    SumAtLeastTerm(LiveTerms(w), 256);
  }

  /** The codes of a frequency table are a prefix code if and only if at most 256 of the 257
      symbols occur: with all 257, the 255 merges leave two separate trees. */
  lemma {:induction false} PrefixFreeIff(w: Weights)
    requires Frequencies(w)
    ensures PrefixFree(w, CodeBook(w)) <==> LiveCount(w) <= 256
  {
    SomeLive(w);
    PrefixFreeIffEnoughMerges(w, SYMBOLS);
  }

  /** The table that fails: every byte occurs once. */
  lemma {:induction false} AllSymbolsOccur() returns (w: Weights)
    ensures Frequencies(w) && w == seq(NODES, i => if i < SYMBOLS then 1 else 0)
    ensures LiveCount(w) == Sum(w) == 257 && !PrefixFree(w, CodeBook(w))
  {
    w := seq(NODES, i => if i < SYMBOLS then 1 else 0);
    PrefixFreeIff(w);
    CountPrefix(w, NODES);
    assert LiveTerms(w)[..NODES] == LiveTerms(w) == w;
  }

  lemma {:induction false} AtMostAllSymbols(w: Weights)
    requires Frequencies(w)
    ensures LiveCount(w) <= 257
  {
    var all := seq(NODES, i => if i < SYMBOLS then 1 else 0);
    var t := LiveTerms(w);
    var slack := seq(NODES, i requires 0 <= i < NODES => all[i] - t[i]);
    SumAdd(t, slack, all);
    SumNonNegative(slack);
    CountPrefix(all, NODES);
    assert LiveTerms(all)[..NODES] == LiveTerms(all) == all;
  }

  lemma {:induction false} CountPrefix(w: Weights, n: nat)
    requires n <= NODES
    requires w == seq(NODES, i => if i < SYMBOLS then 1 else 0)
    ensures Sum(LiveTerms(w)[..n]) == if n <= SYMBOLS then n else SYMBOLS
  {
    if n > 0 {
      CountPrefix(w, n - 1);
      assert LiveTerms(w)[..n][..n - 1] == LiveTerms(w)[..n - 1];
    }
  }

  // ---------- Kraft sums ----------

  type Lengths = l: seq<nat> | |l| == NODES witness seq(NODES, _ => 0)

  function LengthsOf(c: CodeWords): (l: Lengths)
    ensures forall i | 0 <= i < NODES :: l[i] == |c[i]|
  {
    seq(NODES, i requires 0 <= i < NODES => |c[i]|)
  }

  ghost predicate LiveWithin(w: Weights, l: Lengths, d: nat) {
    forall x | 0 <= x < NODES && w[x] > 0 :: l[x] <= d
  }

  ghost function SpaceTerms(w: Weights, l: Lengths, d: nat): (t: seq<int>)
    requires LiveWithin(w, l, d)
    ensures |t| == NODES
    ensures forall i | 0 <= i < NODES :: t[i] == if w[i] > 0 then Pow2(d - l[i]) else 0
  {
    seq(NODES, i requires 0 <= i < NODES => if w[i] > 0 then Pow2(d - l[i]) else 0)
  }

  /** The share of the 2^d words of length d that lengths l claim. */
  ghost function Space(w: Weights, l: Lengths, d: nat): int
    requires LiveWithin(w, l, d)
  {
    Sum(SpaceTerms(w, l, d))
  }

  /** All live code words fit in depth d. */
  ghost predicate Within(w: Weights, c: CodeWords, d: nat) {
    LiveWithin(w, LengthsOf(c), d)
  }

  /** The sum of 2^-length over the live code words, times 2^d. */
  ghost function Kraft(w: Weights, c: CodeWords, d: nat): int
    requires Within(w, c, d)
  {
    Space(w, LengthsOf(c), d)
  }

  /** How many roots `left` merges leave of n live nodes. */
  function Roots(n: int, left: nat): int {
    if n <= 1 + left then 1 else n - left
  }

  lemma {:induction false} MergeWithin(w: Weights, j: nat, d: nat)
    requires Unused(w, j) && CanMerge(w) && j < NODES
    requires Within(w, Codes(w, j), d)
    ensures Within(Merge(w, j), Codes(Merge(w, j), j + 1), d)
    ensures |Codes(Merge(w, j), j + 1)[j]| < d
  {
    MergeShape(w, j);
    var w', c', c := Merge(w, j), Codes(Merge(w, j), j + 1), Codes(w, j);
    assert |c'[j]| + 1 == |c[First(w)]| <= d;
    forall x | 0 <= x < NODES && w'[x] > 0
      ensures |c'[x]| <= d
    {
      assert x == j || (c'[x] == c[x] && w[x] > 0);
    }
  }

  lemma {:induction false} SplitKeepsKraft(w: Weights, c: CodeWords, w': Weights, c': CodeWords, a: nat, b: nat, j: nat, d: nat)
    requires a < j && b < j && a != b && j < NODES
    requires w[a] > 0 && w[b] > 0 && w[j] == 0 && w' == w[a := 0][b := 0][j := w[a] + w[b]]
    requires c == c'[a := c'[j] + [false]][b := c'[j] + [true]]
    requires Within(w, c, d) && Within(w', c', d)
    ensures Kraft(w, c, d) == Kraft(w', c', d)
  {
    assert |c'[j]| + 1 == |c[a]| == |c[b]| <= d;
    var t := SpaceTerms(w, LengthsOf(c), d);
    assert t[a] + t[b] == Pow2(d - |c'[j]|);
    SumThree(t, SpaceTerms(w', LengthsOf(c'), d), a, b, j);
  }

  lemma {:induction false} MergeKeepsKraft(w: Weights, j: nat, d: nat)
    requires Unused(w, j) && CanMerge(w) && j < NODES
    requires Within(w, Codes(w, j), d)
    ensures Within(Merge(w, j), Codes(Merge(w, j), j + 1), d)
    ensures Kraft(w, Codes(w, j), d) == Kraft(Merge(w, j), Codes(Merge(w, j), j + 1), d)
  {
    MergeShape(w, j);
    MergeWithin(w, j, d);
    SplitKeepsKraft(w, Codes(w, j), Merge(w, j), Codes(Merge(w, j), j + 1), First(w), Second(w), j, d);
  }

  lemma {:induction false} KraftOfRoots(w: Weights, c: CodeWords, d: nat)
    requires forall x | 0 <= x < NODES :: c[x] == []
    ensures Kraft(w, c, d) == Pow2(d) * LiveCount(w)
  {
    SumScale(LiveTerms(w), Pow2(d), SpaceTerms(w, LengthsOf(c), d));
  }

  lemma {:induction false} KraftCountsRoots(w: Weights, j: nat, d: nat)
    requires Unused(w, j) && LiveCount(w) >= 1
    requires Within(w, Codes(w, j), d)
    ensures Kraft(w, Codes(w, j), d) == Pow2(d) * Roots(LiveCount(w), NODES - j)
    decreases NODES - j
  {
    CanMergeIff(w);
    if j == NODES || !CanMerge(w) {
      KraftOfRoots(w, Codes(w, j), d);
      assert LiveCount(w) == Roots(LiveCount(w), NODES - j);
    } else {
      MergeDropsOne(w, j);
      MergeKeepsKraft(w, j, d);
      KraftCountsRoots(Merge(w, j), j + 1, d);
      assert Roots(LiveCount(Merge(w, j)), NODES - (j + 1)) == Roots(LiveCount(w), NODES - j);
    }
  }

  /** The sum of 2^-length over the code words of a frequency table is exactly 1 when at most 256
      symbols occur, and exactly 2 when all 257 do. */
  lemma {:induction false} KraftEquality(w: Weights, d: nat)
    requires Frequencies(w)
    requires Within(w, CodeBook(w), d)
    ensures Kraft(w, CodeBook(w), d) == if LiveCount(w) <= 256 then Pow2(d) else 2 * Pow2(d)
  {
    SomeLive(w);
    KraftCountsRoots(w, SYMBOLS, d);
    AtMostAllSymbols(w);
  }

  // ---------- reading code words back ----------

  /** Every bit string at least as long as the longest code word starts with a code word. */
  lemma {:induction false} Complete(w: Weights, j: nat, word: seq<bool>) returns (x: nat)
    requires Unused(w, j) && LiveCount(w) >= 1
    requires Within(w, Codes(w, j), |word|)
    ensures x < NODES && w[x] > 0 && Codes(w, j)[x] <= word
    decreases NODES - j
  {
    if j == NODES || !CanMerge(w) {
      if First(w) == NODES {
        SumZero(LiveTerms(w));
      }
      x := First(w);
    } else {
      MergeDropsOne(w, j);
      MergeWithin(w, j, |word|);
      CanMergeIff(w);
      var y := Complete(Merge(w, j), j + 1, word);
      x := WordBelow(w, j, word, y);
    }
  }

  /** When the merges left do not join all live nodes, such a string even starts with two. */
  lemma {:induction false} CoveredTwice(w: Weights, j: nat, word: seq<bool>) returns (x: nat, y: nat)
    requires Unused(w, j) && LiveCount(w) > 1 + (NODES - j)
    requires Within(w, Codes(w, j), |word|)
    ensures x < NODES && y < NODES && x != y && w[x] > 0 && w[y] > 0
    ensures Codes(w, j)[x] <= word && Codes(w, j)[y] <= word
    decreases NODES - j
  {
    CanMergeIff(w);
    MergeShape(w, j);
    if j == NODES {
      x, y := First(w), Second(w);
    } else {
      MergeDropsOne(w, j);
      MergeWithin(w, j, |word|);
      x, y := CoveredTwice(Merge(w, j), j + 1, word);
      x := WordBelow(w, j, word, x);
      y := WordBelow(w, j, word, y);
    }
  }

  lemma {:induction false} WordBelow(w: Weights, j: nat, word: seq<bool>, y: nat) returns (x: nat)
    requires Unused(w, j) && CanMerge(w) && j < NODES
    requires y < NODES && Merge(w, j)[y] > 0 && Codes(Merge(w, j), j + 1)[y] <= word
    requires |Codes(Merge(w, j), j + 1)[j]| < |word|
    ensures x < NODES && w[x] > 0 && Codes(w, j)[x] <= word
    ensures x == y || (y == j && (x == First(w) || x == Second(w)))
  {
    MergeShape(w, j);
    var n := |Codes(Merge(w, j), j + 1)[j]|;
    x := if y != j then y else if word[n] then Second(w) else First(w);
  }

  /** A message written with the code words of c, one after the other. */
  function Encode(c: CodeWords, message: seq<nat>): seq<bool>
    requires forall k | 0 <= k < |message| :: message[k] < NODES
  {
    if message == [] then [] else c[message[0]] + Encode(c, message[1..])
  }

  ghost predicate Message(w: Weights, message: seq<nat>) {
    forall k | 0 <= k < |message| :: message[k] < NODES && w[message[k]] > 0
  }

  /** Two messages with the same encoding are the same message, when at least two and at most 256
      symbols occur. */
  lemma {:induction false} Decodable(w: Weights, m: seq<nat>, n: seq<nat>)
    requires Frequencies(w) && 2 <= LiveCount(w) <= 256
    requires Message(w, m) && Message(w, n)
    requires Encode(CodeBook(w), m) == Encode(CodeBook(w), n)
    ensures m == n
  {
    var c := CodeBook(w);
    PrefixFreeIff(w);
    NoEmptyWord(w, c);
    if m != [] && n != [] {
      var word := Encode(c, m);
      PrefixesCompare(c[m[0]], c[n[0]], word);
      assert m[0] == n[0];
      assert Encode(c, m[1..]) == word[|c[m[0]]|..] == Encode(c, n[1..]);
      Decodable(w, m[1..], n[1..]);
    }
  }

  lemma {:induction false} NoEmptyWord(w: Weights, c: CodeWords)
    requires PrefixFree(w, c) && LiveCount(w) >= 2
    ensures forall x | 0 <= x < NODES && w[x] > 0 :: |c[x]| > 0
  {
    CanMergeIff(w);
    var a, b := First(w), Second(w);
    assert a != NODES;
    forall x | 0 <= x < NODES && w[x] > 0
      ensures |c[x]| > 0
    {
      var y := if x == a then b else a;
      assert !(c[x] <= c[y]);
    }
  }
}
