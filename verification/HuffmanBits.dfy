/** Which bit the two children of a merge get: the lighter one 0, the heavier one 1. */
module HuffmanBits {
  import opened Sums
  import opened HuffmanForest
  import opened HuffmanCodes
  import opened HuffmanTables
  import opened HuffmanVlc

  // ---------- code words ----------

  ghost function Under(w: Weights, c: CodeWords, q: seq<bool>): (t: seq<int>)
    ensures |t| == NODES && forall i | 0 <= i < NODES :: t[i] == if q <= c[i] then w[i] else 0
  {
    seq(NODES, i requires 0 <= i < NODES => if q <= c[i] then w[i] else 0)
  }

  /** The weight of all nodes whose words start with q. */
  ghost function WeightUnder(w: Weights, c: CodeWords, q: seq<bool>): int {
    Sum(Under(w, c, q))
  }

  lemma {:induction false} PrefixOfLonger(q: seq<bool>, word: seq<bool>, bit: bool)
    ensures q <= word + [bit] <==> q <= word || q == word + [bit]
  {
    if q <= word + [bit] && |q| <= |word| {
      assert q == (word + [bit])[..|q|] == word[..|q|];
    }
  }

  lemma {:induction false} MergeUnder(w: Weights, j: nat, q: seq<bool>)
    requires Unused(w, j) && CanMerge(w) && j < NODES
    ensures var c' := Codes(Merge(w, j), j + 1);
            WeightUnder(w, Codes(w, j), q) == WeightUnder(Merge(w, j), c', q)
              + (if q == c'[j] + [false] then w[First(w)] else 0)
              + (if q == c'[j] + [true] then w[Second(w)] else 0)
  {
    MergeShape(w, j);
    var a, b, m := First(w), Second(w), Merge(w, j);
    var c, c' := Codes(w, j), Codes(m, j + 1);
    PrefixOfLonger(q, c'[j], false);
    PrefixOfLonger(q, c'[j], true);
    assert !(c'[j] + [false] <= c'[j]) && !(c'[j] + [true] <= c'[j]);
    SumThree(Under(w, c, q), Under(m, c', q), a, b, j);
  }

  /** After any bits p, the nodes that go on with 0 weigh together at most as much as those that go on
      with 1: the two sides of every merge. */
  lemma {:induction false} LighterGoesOnWithZero(w: Weights, j: nat, p: seq<bool>)
    requires Unused(w, j)
    ensures WeightUnder(w, Codes(w, j), p + [false]) <= WeightUnder(w, Codes(w, j), p + [true])
    decreases NODES - j
  {
    if j == NODES || !CanMerge(w) {
      SumZero(Under(w, Codes(w, j), p + [false]));
      SumZero(Under(w, Codes(w, j), p + [true]));
    } else {
      MergeShape(w, j);
      MergeUnder(w, j, p + [false]);
      MergeUnder(w, j, p + [true]);
      LighterGoesOnWithZero(Merge(w, j), j + 1, p);
      var word := Codes(Merge(w, j), j + 1)[j];
      assert p + [false] == word + [false] <==> p == word by {
        assert (p + [false])[..|p|] == p && (word + [false])[..|word|] == word;
      }
      assert p + [true] == word + [true] <==> p == word by {
        assert (p + [true])[..|p|] == p && (word + [true])[..|word|] == word;
      }
      assert (p + [false])[|p|] != (word + [true])[|word|] && (p + [true])[|p|] != (word + [false])[|word|];
    }
  }

  // ---------- the integer tables ----------

  /** The frequencies of the symbols whose codes start with the n bits of v. */
  ghost function TableTerms(w: Weights, bitsTab: seq<int>, lenTab: seq<int>, v: nat, n: nat): (t: seq<int>)
    requires Tabled(bitsTab, lenTab)
    ensures |t| == NODES
    ensures forall s | 0 <= s < NODES ::
              t[s] == if s < SYMBOLS && lenTab[s] >= n && ShiftRight(bitsTab[s], lenTab[s] - n) == v then w[s] else 0
  {
    seq(NODES, s requires 0 <= s < NODES =>
      if s < SYMBOLS && lenTab[s] >= n && ShiftRight(bitsTab[s], lenTab[s] - n) == v then w[s] else 0)
  }

  ghost function TableWeight(w: Weights, bitsTab: seq<int>, lenTab: seq<int>, v: nat, n: nat): int
    requires Tabled(bitsTab, lenTab)
  {
    Sum(TableTerms(w, bitsTab, lenTab, v, n))
  }

  lemma {:induction false} ValueOfDigits(v: nat, n: nat)
    requires v < Pow2(n)
    ensures Value(Digits(v, n)) == v
  {
    if n > 0 {
      ValueOfDigits(v / 2, n - 1);
      var front := Digits(v / 2, n - 1);
      assert Digits(v, n)[..n - 1] == front;
    }
  }

  lemma {:induction false} TermsAreUnder(w: Weights, bitsTab: seq<int>, lenTab: seq<int>, q: seq<bool>)
    requires Frequencies(w) && TablesFor(w, bitsTab, lenTab) && Tabled(bitsTab, lenTab)
    ensures TableWeight(w, bitsTab, lenTab, Value(q), |q|) == WeightUnder(w, CodeBook(w), q)
  {
    var c := CodeBook(w);
    var t, u := TableTerms(w, bitsTab, lenTab, Value(q), |q|), Under(w, c, q);
    forall s | 0 <= s < NODES
      ensures t[s] == u[s]
    {
      if s < SYMBOLS && |q| <= |c[s]| {
        PrefixIsShift(q, c[s]);
      }
    }
    assert t == u;
  }

  /** In the tables: of the symbols whose codes start with the n bits of v, those that go on with 0
      occur together at most as often as those that go on with 1. */
  lemma {:induction false} ZeroIsLighter(w: Weights, bitsTab: seq<int>, lenTab: seq<int>, v: nat, n: nat)
    requires Frequencies(w) && TablesFor(w, bitsTab, lenTab) && Tabled(bitsTab, lenTab) && v < Pow2(n)
    ensures TableWeight(w, bitsTab, lenTab, 2 * v, n + 1) <= TableWeight(w, bitsTab, lenTab, 2 * v + 1, n + 1)
  {
    var p := Digits(v, n);
    ValueOfDigits(v, n);
    assert (p + [false])[..n] == p && (p + [true])[..n] == p;
    TermsAreUnder(w, bitsTab, lenTab, p + [false]);
    TermsAreUnder(w, bitsTab, lenTab, p + [true]);
    LighterGoesOnWithZero(w, SYMBOLS, p);
  }

  /** The two symbols merged first differ in their last bit, the lighter one having 0. */
  lemma {:induction false} LightestAreSiblings(w: Weights, bitsTab: seq<int>, lenTab: seq<int>)
    requires Frequencies(w) && TablesFor(w, bitsTab, lenTab) && LiveCount(w) >= 2
    ensures First(w) < SYMBOLS && Second(w) < SYMBOLS && lenTab[First(w)] == lenTab[Second(w)] > 0
    ensures bitsTab[First(w)] % 2 == 0 && bitsTab[Second(w)] == bitsTab[First(w)] + 1
  {
    CanMergeIff(w);
    MergeShape(w, SYMBOLS);
    var word := Codes(Merge(w, SYMBOLS), SYMBOLS + 1)[SYMBOLS];
    assert (word + [false])[..|word|] == word && (word + [true])[..|word|] == word;
  }
}
