/** No code word is longer than 22 bits: the Fibonacci bound that answers the question in the source
    whether the "vlc length overflow" branch can happen at all. */
module HuffmanDepth {
  import opened Sums
  import opened HuffmanForest

  const MAX_LENGTH := 22
  /** 256 bytes of frequency at most 255, and the end symbol of frequency 1. */
  const MAX_TOTAL := 255 * 256 + 1

  function Fib(n: nat): nat {
    if n < 2 then n else Fib(n - 2) + Fib(n - 1)
  }

  lemma {:induction false} FibMonotone(a: nat, b: nat)
    requires a <= b
    ensures Fib(a) <= Fib(b)
    decreases b
  {
    if a < b {
      FibMonotone(a, b - 1);
      assert Fib(b - 1) <= Fib(b) by {
        if b >= 2 {
          assert Fib(b) == Fib(b - 2) + Fib(b - 1);
        }
      }
    }
  }

  lemma {:induction false} Fib25()
    ensures Fib(25) == 75025
  {
    assert Fib(8) == 21 && Fib(9) == 34;
    assert Fib(10) == 55 && Fib(11) == 89;
    assert Fib(12) == 144 && Fib(13) == 233;
    assert Fib(14) == 377 && Fib(15) == 610;
    assert Fib(16) == 987 && Fib(17) == 1597;
    assert Fib(18) == 2584 && Fib(19) == 4181;
    assert Fib(20) == 6765 && Fib(21) == 10946;
    assert Fib(22) == 17711 && Fib(23) == 28657;
  }

  lemma {:induction false} FibAbove(n: nat)
    requires n >= 25
    ensures Fib(n) > MAX_TOTAL
  {
    Fib25();
    FibMonotone(25, n);
  }

  type Heights = h: seq<nat> | |h| == NODES witness seq(NODES, _ => 0)

  function MergeHeights(w: Weights, h: Heights, j: nat): Heights
    requires Unused(w, j) && CanMerge(w) && j < NODES
  {
    MergeShape(w, j);
    var a, b := h[First(w)], h[Second(w)];
    h[j := 1 + if a < b then b else a]
  }

  /** The invariant of the merge loop: every live node is at least as heavy as the heaviest node
      merged so far, a node of height n weighs at least Fib(n + 2), and the taller child of a
      merged node has left its Fibonacci number in the heaviest merged weight. */
  ghost predicate Grown(w: Weights, h: Heights, heaviest: nat) {
    && Sum(w) <= MAX_TOTAL
    && forall x | 0 <= x < NODES && w[x] > 0 ::
         && heaviest <= w[x]
         && Fib(h[x] + 2) <= w[x]
         && (h[x] > 0 ==> Fib(h[x] + 1) <= heaviest)
  }

  lemma {:induction false} MergeKeepsGrown(w: Weights, h: Heights, heaviest: nat, j: nat)
    requires Unused(w, j) && CanMerge(w) && j < NODES
    requires Grown(w, h, heaviest)
    ensures Grown(Merge(w, j), MergeHeights(w, h, j), w[Second(w)])
    ensures heaviest <= w[First(w)] <= w[Second(w)]
  {
    MergeShape(w, j);
    MergeKeepsTotal(w, j);
    var a, b := First(w), Second(w);
    var w', h' := Merge(w, j), MergeHeights(w, h, j);
    var n := h'[j];
    assert Fib(n + 1) <= w[b];
    assert Fib(n + 2) == Fib(n) + Fib(n + 1);
    assert Fib(n + 2) <= w'[j] by {
      if n == 1 {
        assert Fib(3) == 2;
      }
    }
  }

  /** A live node's code word and the height of the subtree below it together stay within 22. */
  lemma {:induction false} DepthBound(w: Weights, h: Heights, heaviest: nat, j: nat, x: nat)
    requires Unused(w, j) && Grown(w, h, heaviest)
    requires x < NODES && w[x] > 0
    ensures |Codes(w, j)[x]| + h[x] <= MAX_LENGTH
    decreases NODES - j
  {
    if j == NODES || !CanMerge(w) {
      HeightBound(w, h, heaviest, x);
    } else {
      MergeShape(w, j);
      MergeKeepsGrown(w, h, heaviest, j);
      var y := if x == First(w) || x == Second(w) then j else x;
      DepthBound(Merge(w, j), MergeHeights(w, h, j), w[Second(w)], j + 1, y);
      MergeDeepens(w, h, j, x, y);
    }
  }

  lemma {:induction false} WeightAtMostSum(w: seq<int>, x: nat)
    requires x < |w| && forall i | 0 <= i < |w| :: w[i] >= 0
    ensures w[x] <= Sum(w)
  {
    SumAtLeastTerm(w, x);
  }

  lemma {:induction false} HeightBound(w: Weights, h: Heights, heaviest: nat, x: nat)
    requires Grown(w, h, heaviest)
    requires x < NODES && w[x] > 0
    ensures h[x] <= MAX_LENGTH
  {
    WeightAtMostSum(w, x);
    if h[x] > MAX_LENGTH {
      FibAbove(h[x] + 2);
    }
  }

  lemma {:induction false} MergeDeepens(w: Weights, h: Heights, j: nat, x: nat, y: nat)
    requires Unused(w, j) && CanMerge(w) && j < NODES
    requires x < NODES && w[x] > 0
    requires y == if x == First(w) || x == Second(w) then j else x
    ensures |Codes(w, j)[x]| + h[x] <= |Codes(Merge(w, j), j + 1)[y]| + MergeHeights(w, h, j)[y]
  {
    MergeShape(w, j);
  }

  lemma {:induction false} TotalAtMost(w: Weights)
    requires Frequencies(w)
    ensures Sum(w) <= MAX_TOTAL
  {
    var t: seq<int> := w;
    var cap := seq(NODES, i => if i < 256 then 255 else if i == 256 then 1 else 0);
    var slack := seq(NODES, i requires 0 <= i < NODES => cap[i] - t[i]);
    SumAdd(t, slack, cap);
    SumNonNegative(slack);
    CapTotal(cap, NODES);
    assert cap[..NODES] == cap;
  }

  lemma {:induction false} CapTotal(cap: seq<int>, n: nat)
    requires n <= |cap| == NODES
    requires forall i | 0 <= i < NODES :: cap[i] == if i < 256 then 255 else if i == 256 then 1 else 0
    ensures Sum(cap[..n]) == if n <= 256 then 255 * n else MAX_TOTAL
  {
    if n > 0 {
      CapTotal(cap, n - 1);
      assert cap[..n][..n - 1] == cap[..n - 1];
    }
  }

  lemma {:induction false} Starts(w: Weights)
    requires Frequencies(w)
    ensures Grown(w, seq(NODES, _ => 0), 0)
  {
    TotalAtMost(w);
    assert Fib(2) == 1;
  }

  /** For every frequency table, no code word is longer than 22 bits; dead symbols have none. */
  lemma {:induction false} CodeWordsAreShort(w: Weights, s: nat)
    requires Frequencies(w)
    requires s < SYMBOLS
    ensures |CodeBook(w)[s]| <= MAX_LENGTH
    ensures w[s] == 0 ==> CodeBook(w)[s] == []
  {
    if w[s] > 0 {
      Starts(w);
      DepthBound(w, seq(NODES, _ => 0), 0, SYMBOLS, s);
    } else {
      DeadHaveNoCode(w, SYMBOLS, s);
    }
  }

  lemma {:induction false} DeadHaveNoCode(w: Weights, j: nat, x: nat)
    requires Unused(w, j)
    requires x < j && w[x] == 0
    ensures Codes(w, j)[x] == []
    decreases NODES - j
  {
    if j < NODES && CanMerge(w) {
      MergeShape(w, j);
      DeadHaveNoCode(Merge(w, j), j + 1, x);
    }
  }
}
