/** No prefix code for the same symbols has a smaller total of frequency times length than the code
    words of the merge loop. */
module HuffmanOptimal {
  import opened Sums
  import opened HuffmanForest
  import opened HuffmanCodes

  ghost function CostTerms(w: Weights, l: Lengths): (t: seq<int>)
    ensures |t| == NODES && forall i | 0 <= i < NODES :: t[i] == w[i] * l[i]
  {
    seq(NODES, i requires 0 <= i < NODES => w[i] * l[i])
  }

  /** The number of bits that w[x] copies of every symbol x take. */
  ghost function Cost(w: Weights, l: Lengths): int {
    Sum(CostTerms(w, l))
  }

  /** The lengths l satisfy Kraft's inequality at depth d. */
  ghost predicate Fits(w: Weights, l: Lengths, d: nat) {
    LiveWithin(w, l, d) && Space(w, l, d) <= Pow2(d)
  }

  // ---------- one merge, seen from the lengths ----------

  lemma {:induction false} MergeCost(w: Weights, j: nat, l: Lengths, m: Lengths)
    requires Unused(w, j) && CanMerge(w) && j < NODES
    requires l[First(w)] == l[Second(w)] == m[j] + 1
    requires forall x | 0 <= x < NODES && x != j && x != First(w) && x != Second(w) && w[x] > 0 :: m[x] == l[x]
    ensures Cost(w, l) == Cost(Merge(w, j), m) + w[First(w)] + w[Second(w)]
  {
    MergeShape(w, j);
    var a, b := First(w), Second(w);
    assert w[a] * (m[j] + 1) + w[b] * (m[j] + 1) == (w[a] + w[b]) * m[j] + w[a] + w[b];
    SumThree(CostTerms(w, l), CostTerms(Merge(w, j), m), a, b, j);
  }

  lemma {:induction false} MergeFits(w: Weights, j: nat, l: Lengths, d: nat)
    requires Unused(w, j) && CanMerge(w) && j < NODES && d > 0
    requires Fits(w, l, d) && l[First(w)] == l[Second(w)] == d
    ensures Fits(Merge(w, j), l[j := d - 1], d)
  {
    MergeShape(w, j);
    var a, b, m := First(w), Second(w), l[j := d - 1];
    assert Pow2(1) == 2 && Pow2(0) == 1;
    SumThree(SpaceTerms(w, l, d), SpaceTerms(Merge(w, j), m, d), a, b, j);
  }

  // ---------- making the two lightest nodes the deepest pair ----------

  lemma {:induction false} LighterFirst(light: nat, heavy: nat, short: nat, long: nat)
    requires light <= heavy && short <= long
    ensures light * long + heavy * short <= light * short + heavy * long
  {
    assert (heavy - light) * (long - short) >= 0;
    assert (heavy - light) * (long - short) == heavy * long - heavy * short - light * long + light * short;
  }

  /** Giving the lighter of two nodes the longer length never costs more. */
  lemma {:induction false} Exchange(w: Weights, l: Lengths, d: nat, x: nat, p: nat) returns (m: Lengths)
    requires x < NODES && p < NODES && w[x] > 0 && w[p] > 0
    requires w[x] <= w[p] && l[x] <= l[p] && Fits(w, l, d)
    ensures m == l[x := l[p]][p := l[x]]
    ensures Fits(w, m, d) && Cost(w, m) <= Cost(w, l)
  {
    m := l[x := l[p]][p := l[x]];
    if x == p {
      assert m == l;
    } else {
      SumTwo(SpaceTerms(w, l, d), SpaceTerms(w, m, d), x, p);
      LighterFirst(w[x], w[p], l[x], l[p]);
      SumTwo(CostTerms(w, l), CostTerms(w, m), x, p);
    }
  }

  /** When no live node has length d, depth d - 1 is enough. */
  lemma {:induction false} Shallower(w: Weights, l: Lengths, d: nat)
    requires d > 0 && Fits(w, l, d)
    requires forall x | 0 <= x < NODES && w[x] > 0 :: l[x] < d
    ensures Fits(w, l, d - 1)
  {
    SumScale(SpaceTerms(w, l, d - 1), 2, SpaceTerms(w, l, d));
  }

  lemma {:induction false} Pow2Even(n: nat)
    requires n > 0
    ensures Pow2(n) % 2 == 0
  {
  }

  /** A single term 1 among even ones leaves room for another 1 below an even bound. */
  lemma {:induction false} OddTerm(s: seq<int>, p: nat, bound: int)
    requires p < |s| && s[p] == 1 && bound % 2 == 0 && Sum(s) <= bound
    requires forall i | 0 <= i < |s| && i != p :: s[i] % 2 == 0
    ensures Sum(s) < bound
  {
    SumUpdate(s, p, 0);
    SumEven(s[p := 0]);
  }

  lemma {:induction false} LonerFits(w: Weights, l: Lengths, d: nat, p: nat, m: Lengths)
    requires p < NODES && w[p] > 0 && l[p] == d
    requires d > 0 && Fits(w, l, d) && m == l[p := d - 1]
    requires forall x | 0 <= x < NODES && w[x] > 0 && x != p :: l[x] < d
    ensures Fits(w, m, d)
  {
    var s := SpaceTerms(w, l, d);
    assert Pow2(0) == 1 && Pow2(1) == 2;
    forall i | 0 <= i < NODES && i != p
      ensures s[i] % 2 == 0
    {
      if w[i] > 0 {
        Pow2Even(d - l[i]);
      }
    }
    Pow2Even(d);
    OddTerm(s, p, Pow2(d));
    SumOne(s, SpaceTerms(w, m, d), p);
  }

  /** A single node at the full depth can be shortened by one bit: the claimed space is odd. */
  lemma {:induction false} ShortenLoner(w: Weights, l: Lengths, d: nat, p: nat) returns (m: Lengths)
    requires d > 0 && Fits(w, l, d)
    requires p < NODES && w[p] > 0 && l[p] == d
    requires forall x | 0 <= x < NODES && w[x] > 0 && x != p :: l[x] < d
    ensures m == l[p := d - 1] && Fits(w, m, d) && Cost(w, m) <= Cost(w, l)
  {
    m := l[p := d - 1];
    LonerFits(w, l, d, p, m);
    assert w[p] * (d - 1) <= w[p] * d;
    SumOne(CostTerms(w, l), CostTerms(w, m), p);
  }

  lemma {:induction false} TwoNeedDepth(w: Weights, l: Lengths, x: nat, y: nat)
    requires x < NODES && y < NODES && x != y && w[x] > 0 && w[y] > 0
    ensures !Fits(w, l, 0)
  {
    if LiveWithin(w, l, 0) {
      var s := SpaceTerms(w, l, 0);
      SumUpdate(s, x, 0);
      SumAtLeastTerm(s[x := 0], y);
    }
  }

  /** Two nodes at full depth d can be exchanged for the two lightest ones. */
  lemma {:induction false} SinkLightest(w: Weights, j: nat, l: Lengths, d: nat, p: nat, q: nat) returns (m: Lengths)
    requires Unused(w, j) && CanMerge(w) && Fits(w, l, d)
    requires p < NODES && q < NODES && p != q && w[p] > 0 && w[q] > 0 && l[p] == l[q] == d
    ensures Fits(w, m, d) && Cost(w, m) <= Cost(w, l)
    ensures m[First(w)] == m[Second(w)] == d
  {
    MergeShape(w, j);
    var a, b := First(w), Second(w);
    var k := Exchange(w, l, d, a, p);
    var r := if q == a then p else q;
    assert r != a && k[r] == d;
    m := Exchange(w, k, d, b, r);
  }

  /** Without two nodes at the full depth, one bit less is enough. */
  lemma {:induction false} LowerDepth(w: Weights, l: Lengths, d: nat) returns (k: Lengths)
    requires d > 0 && Fits(w, l, d)
    requires forall p, q | 0 <= p < q < NODES && w[p] > 0 && w[q] > 0 && l[p] == d :: l[q] != d
    ensures Fits(w, k, d - 1) && Cost(w, k) <= Cost(w, l)
  {
    k := l;
    if p :| 0 <= p < NODES && w[p] > 0 && l[p] == d {
      k := ShortenLoner(w, l, d, p);
    }
    Shallower(w, k, d);
  }

  /** Any lengths that fit can be turned, at no cost, into ones where the two lightest nodes are
      the deepest. */
  lemma {:induction false} DeepestPair(w: Weights, j: nat, l: Lengths, d: nat) returns (m: Lengths, e: nat)
    requires Unused(w, j) && CanMerge(w) && Fits(w, l, d)
    ensures e > 0 && Fits(w, m, e) && Cost(w, m) <= Cost(w, l)
    ensures m[First(w)] == m[Second(w)] == e
    decreases d
  {
    if d == 0 {
      MergeShape(w, j);
      TwoNeedDepth(w, l, First(w), Second(w));
      assert false;
    } else if p, q :| 0 <= p < q < NODES && w[p] > 0 && w[q] > 0 && l[p] == d && l[q] == d {
      m := SinkLightest(w, j, l, d, p, q);
      e := d;
    } else {
      var k := LowerDepth(w, l, d);
      m, e := DeepestPair(w, j, k, d - 1);
    }
  }

  /** The merge adds the two merged weights to the cost of the remaining merges. */
  lemma {:induction false} CodesCost(w: Weights, j: nat)
    requires Unused(w, j) && CanMerge(w) && j < NODES
    ensures Cost(w, LengthsOf(Codes(w, j)))
            == Cost(Merge(w, j), LengthsOf(Codes(Merge(w, j), j + 1))) + w[First(w)] + w[Second(w)]
  {
    MergeShape(w, j);
    MergeCost(w, j, LengthsOf(Codes(w, j)), LengthsOf(Codes(Merge(w, j), j + 1)));
  }

  lemma {:induction false} NoMergeNoCost(w: Weights, j: nat, l: Lengths)
    requires Unused(w, j) && (j == NODES || !CanMerge(w))
    ensures Cost(w, LengthsOf(Codes(w, j))) == 0 <= Cost(w, l)
  {
    var h := LengthsOf(Codes(w, j));
    forall i | 0 <= i < NODES
      ensures w[i] * h[i] == 0 && w[i] * l[i] >= 0
    {
    }
    SumZero(CostTerms(w, h));
    SumNonNegative(CostTerms(w, l));
  }

  /** Whatever lengths satisfy Kraft's inequality cost at least what the remaining merges cost. */
  lemma {:induction false} LowerBound(w: Weights, j: nat, l: Lengths, d: nat)
    requires Unused(w, j) && Fits(w, l, d)
    ensures Cost(w, LengthsOf(Codes(w, j))) <= Cost(w, l)
    decreases NODES - j
  {
    if j == NODES || !CanMerge(w) {
      NoMergeNoCost(w, j, l);
    } else {
      MergeShape(w, j);
      var m, e := DeepestPair(w, j, l, d);
      MergeFits(w, j, m, e);
      MergeCost(w, j, m, m[j := e - 1]);
      LowerBound(Merge(w, j), j + 1, m[j := e - 1], e);
      CodesCost(w, j);
    }
  }

  // ---------- prefix codes satisfy Kraft's inequality ----------

  /** The live nodes whose word starts with the given bit. */
  function Side(w: Weights, c: CodeWords, bit: bool): (v: Weights)
    ensures forall i | 0 <= i < NODES :: v[i] == if c[i] != [] && c[i][0] == bit then w[i] else 0
  {
    seq(NODES, i requires 0 <= i < NODES => if c[i] != [] && c[i][0] == bit then w[i] else 0)
  }

  function Tails(c: CodeWords): (t: CodeWords)
    ensures forall i | 0 <= i < NODES :: t[i] == if c[i] == [] then [] else c[i][1..]
  {
    seq(NODES, i requires 0 <= i < NODES => if c[i] == [] then [] else c[i][1..])
  }

  lemma {:induction false} SidePrefixFree(w: Weights, c: CodeWords, bit: bool)
    requires PrefixFree(w, c)
    ensures PrefixFree(Side(w, c, bit), Tails(c))
  {
    var v, t := Side(w, c, bit), Tails(c);
    forall x, y | 0 <= x < NODES && 0 <= y < NODES && x != y && v[x] > 0 && v[y] > 0
      ensures !(t[x] <= t[y])
    {
      assert c[x] == [bit] + t[x] && c[y] == [bit] + t[y];
      assert !(c[x] <= c[y]);
    }
  }

  lemma {:induction false} EmptyWordIsAlone(w: Weights, c: CodeWords, d: nat, x: nat)
    requires PrefixFree(w, c) && Within(w, c, d)
    requires x < NODES && w[x] > 0 && c[x] == []
    ensures Kraft(w, c, d) == Pow2(d)
  {
    var t := SpaceTerms(w, LengthsOf(c), d);
    forall y | 0 <= y < NODES && y != x
      ensures t[y] == 0
    {
      assert c[x] <= c[y];
    }
    SumUpdate(t, x, 0);
    SumZero(t[x := 0]);
  }

  lemma {:induction false} SidesAddUp(w: Weights, c: CodeWords, d: nat)
    requires Within(w, c, d) && d > 0
    requires forall x | 0 <= x < NODES && w[x] > 0 :: c[x] != []
    ensures Within(Side(w, c, false), Tails(c), d - 1) && Within(Side(w, c, true), Tails(c), d - 1)
    ensures Kraft(w, c, d) == Kraft(Side(w, c, false), Tails(c), d - 1) + Kraft(Side(w, c, true), Tails(c), d - 1)
  {
    var u := Tails(c);
    var s, t, r := SpaceTerms(Side(w, c, false), LengthsOf(u), d - 1), SpaceTerms(Side(w, c, true), LengthsOf(u), d - 1), SpaceTerms(w, LengthsOf(c), d);
    forall i | 0 <= i < NODES
      ensures r[i] == s[i] + t[i]
    {
    }
    SumAdd(s, t, r);
  }

  lemma {:induction false} KraftInequality(w: Weights, c: CodeWords, d: nat)
    requires PrefixFree(w, c) && Within(w, c, d)
    ensures Kraft(w, c, d) <= Pow2(d)
    decreases d
  {
    if x :| 0 <= x < NODES && w[x] > 0 && c[x] == [] {
      EmptyWordIsAlone(w, c, d, x);
    } else if d == 0 {
      SumZero(SpaceTerms(w, LengthsOf(c), d));
    } else {
      SidesAddUp(w, c, d);
      SidePrefixFree(w, c, false);
      SidePrefixFree(w, c, true);
      KraftInequality(Side(w, c, false), Tails(c), d - 1);
      KraftInequality(Side(w, c, true), Tails(c), d - 1);
    }
  }

  function LongestWord(c: CodeWords, n: nat): (d: nat)
    requires n <= NODES
    ensures forall i | 0 <= i < n :: |c[i]| <= d
  {
    if n == 0 then 0
    else
      var d := LongestWord(c, n - 1);
      if |c[n - 1]| > d then |c[n - 1]| else d
  }

  /** For every frequency table, every prefix code c for the symbols that occur costs at least as
      much as the code words of the merge loop. */
  lemma {:induction false} Optimal(w: Weights, c: CodeWords)
    requires Frequencies(w)
    requires PrefixFree(w, c)
    ensures Cost(w, LengthsOf(CodeBook(w))) <= Cost(w, LengthsOf(c))
  {
    var d := LongestWord(c, NODES);
    KraftInequality(w, c, d);
    LowerBound(w, SYMBOLS, LengthsOf(c), d);
  }
}
