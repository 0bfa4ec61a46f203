/** The end of read_huffman_tables: init_vlc takes the (bits, length) tables, or refuses them. */
module HuffmanVlc {
  import opened Sums
  import opened HuffmanForest
  import opened HuffmanDepth
  import opened HuffmanCodes
  import opened HuffmanTables

  /** ACDC_VLC_BITS: codes up to this length get entries in the first table. */
  const VLC_BITS := 9

  ghost predicate Tabled(bitsTab: seq<int>, lenTab: seq<int>) {
    |bitsTab| == |lenTab| == SYMBOLS && forall s | 0 <= s < SYMBOLS :: bitsTab[s] >= 0 && lenTab[s] >= 0
  }

  /** Both symbols have codes, and that of s starts that of t. */
  predicate Clash(bitsTab: seq<int>, lenTab: seq<int>, s: nat, t: nat)
    requires Tabled(bitsTab, lenTab) && s < SYMBOLS && t < SYMBOLS
  {
    s != t && 0 < lenTab[s] <= lenTab[t] && ShiftRight(bitsTab[t], lenTab[t] - lenTab[s]) == bitsTab[s]
  }

  /** init_vlc succeeds: codes of length 0 are left out, the others must be short enough and fit their
      length, and none may start another. */
  predicate InitVlc(bitsTab: seq<int>, lenTab: seq<int>)
    requires Tabled(bitsTab, lenTab)
  {
    && (forall s | 0 <= s < SYMBOLS && lenTab[s] > 0 :: lenTab[s] <= 3 * VLC_BITS && bitsTab[s] < Pow2(lenTab[s]))
    && (forall s, t | 0 <= s < SYMBOLS && 0 <= t < SYMBOLS :: !Clash(bitsTab, lenTab, s, t))
  }

  /** A symbol that occurs and was never merged: a tree of its own, with an empty code word. */
  predicate Lone(w: Weights, s: nat)
    requires Frequencies(w) && s < SYMBOLS
  {
    w[s] > 0 && CodeBook(w)[s] == []
  }

  lemma {:induction false} ClashIsPrefix(w: Weights, bitsTab: seq<int>, lenTab: seq<int>, s: nat, t: nat)
    requires Frequencies(w) && TablesFor(w, bitsTab, lenTab) && Tabled(bitsTab, lenTab)
    requires s < SYMBOLS && t < SYMBOLS && s != t
    ensures Clash(bitsTab, lenTab, s, t) <==> CodeBook(w)[s] != [] && CodeBook(w)[s] <= CodeBook(w)[t]
  {
    var c := CodeBook(w);
    if |c[s]| <= |c[t]| {
      PrefixIsShift(c[s], c[t]);
    }
  }

  // ---------- a symbol by itself leaves a single tree of the others ----------

  lemma {:induction false} OneLightest(w: Weights, skip: int, r: nat)
    requires IsLightest(w, NODES, skip, r)
    ensures Lightest(w, NODES, skip) == r
  {
  }

  lemma {:induction false} CountWithout(w: Weights, x: nat)
    requires x < NODES && w[x] > 0
    ensures LiveCount(w[x := 0]) == LiveCount(w) - 1
  {
    SumUpdate(LiveTerms(w), x, 0);
    assert LiveTerms(w[x := 0]) == LiveTerms(w)[x := 0];
  }

  lemma {:induction false} SameChoice(w: Weights, x: nat)
    requires CanMerge(w) && x < NODES && x != First(w) && x != Second(w)
    ensures First(w[x := 0]) == First(w) && Second(w[x := 0]) == Second(w)
  {
    var a, b := First(w), Second(w);
    assert a != NODES;
    assert IsLightest(w, NODES, -1, a) && IsLightest(w, NODES, a, b);
    OneLightest(w[x := 0], -1, a);
    OneLightest(w[x := 0], a, b);
  }

  lemma {:induction false} MergeWithout(w: Weights, j: nat, x: nat)
    requires Unused(w, j) && CanMerge(w) && x < j < NODES && x != First(w) && x != Second(w)
    ensures var v := w[x := 0];
            && Unused(v, j) && CanMerge(v) && First(v) == First(w) && Second(v) == Second(w)
            && Merge(v, j) == Merge(w, j)[x := 0] && Merge(w, j)[x] == w[x]
  {
    MergeShape(w, j);
    SameChoice(w, x);
  }

  /** The code words of the others do not depend on a node that is never merged. */
  lemma {:induction false} WithoutLone(w: Weights, j: nat, x: nat)
    requires Unused(w, j) && x < j && w[x] > 0 && Codes(w, j)[x] == []
    ensures Unused(w[x := 0], j)
    ensures forall y | 0 <= y < NODES && y != x :: Codes(w[x := 0], j)[y] == Codes(w, j)[y]
    decreases NODES - j
  {
    CountWithout(w, x);
    CanMergeIff(w);
    CanMergeIff(w[x := 0]);
    if j < NODES && CanMerge(w) {
      MergeShape(w, j);
      MergeWithout(w, j, x);
      WithoutLone(Merge(w, j), j + 1, x);
    }
  }

  lemma {:induction false} NoClashBesideLone(w: Weights, x: nat, s: nat, t: nat)
    requires Frequencies(w) && LiveCount(w) == 257 && x < SYMBOLS && Lone(w, x)
    requires s < SYMBOLS && t < SYMBOLS && s != t && CodeBook(w)[s] != []
    ensures !(CodeBook(w)[s] <= CodeBook(w)[t])
  {
    var v := w[x := 0];
    WithoutLone(w, SYMBOLS, x);
    CountWithout(w, x);
    PrefixFreeIffEnoughMerges(v, SYMBOLS);
    if w[s] == 0 || w[t] == 0 {
      DeadHaveNoCode(w, SYMBOLS, if w[s] == 0 then s else t);
    }
  }

  // ---------- two trees clash, and in the first table ----------

  lemma {:induction false} Pow2Adds(a: nat, b: nat)
    ensures Pow2(a + b) == Pow2(a) * Pow2(b)
    decreases a
  {
    if a > 0 {
      Pow2Adds(a - 1, b);
      assert 2 * (Pow2(a - 1) * Pow2(b)) == (2 * Pow2(a - 1)) * Pow2(b);
    }
  }

  /** 257 codes of more than nine bits would be too few to fill two trees. */
  lemma {:induction false} SomeShort(w: Weights, d: nat) returns (s: nat)
    requires Frequencies(w) && LiveCount(w) == 257 && Within(w, CodeBook(w), d)
    ensures s < SYMBOLS && w[s] > 0 && |CodeBook(w)[s]| <= VLC_BITS
  {
    var c := CodeBook(w);
    if x :| 0 <= x < SYMBOLS && w[x] > 0 && |c[x]| <= VLC_BITS {
      s := x;
    } else {
      KraftEquality(w, d);
      TooFew(w, c, d);
      assert false;
    }
  }

  lemma {:induction false} TooFew(w: Weights, c: CodeWords, d: nat)
    requires Frequencies(w) && LiveCount(w) == 257 && Within(w, c, d)
    requires forall x | 0 <= x < SYMBOLS && w[x] > 0 :: |c[x]| > VLC_BITS
    ensures Kraft(w, c, d) < 2 * Pow2(d)
  {
    var unit := d - VLC_BITS - 1;
    assert w[256] > 0;
    var t, l := SpaceTerms(w, LengthsOf(c), d), LiveTerms(w);
    var most := seq(NODES, i requires 0 <= i < NODES => Pow2(unit) * l[i]);
    forall i | 0 <= i < NODES
      ensures t[i] <= most[i]
    {
      if w[i] > 0 {
        Pow2Adds(unit - (d - |c[i]|), d - |c[i]|);
      }
    }
    SumMonotone(t, most);
    SumScale(l, Pow2(unit), most);
    Pow2Adds(VLC_BITS + 1, unit);
    Thousand(VLC_BITS + 1);
  }

  lemma {:induction false} Thousand(n: nat)
    requires n == 10
    ensures Pow2(n) == 1024
  {
    assert Pow2(n - 8) == 4 && Pow2(n - 6) == 16 && Pow2(n - 4) == 64 && Pow2(n - 2) == 256;
  }

  /** Two trees of more than one node each: some code of at most nine bits starts another. */
  lemma {:induction false} TwoTreesClash(w: Weights, d: nat) returns (s: nat, t: nat)
    requires Frequencies(w) && LiveCount(w) == 257 && Within(w, CodeBook(w), d)
    requires forall x | 0 <= x < SYMBOLS && w[x] > 0 :: CodeBook(w)[x] != []
    ensures s < SYMBOLS && t < SYMBOLS && s != t && w[s] > 0 && w[t] > 0
    ensures CodeBook(w)[s] <= CodeBook(w)[t] && 0 < |CodeBook(w)[s]| <= VLC_BITS
  {
    var c := CodeBook(w);
    s := SomeShort(w, d);
    assert |c[s]| == LengthsOf(c)[s] <= d;
    var word := c[s] + seq(d - |c[s]|, _ => false);
    var x, y := CoveredTwice(w, SYMBOLS, word);
    t := if x == s then y else x;
    PrefixesCompare(c[s], c[t], word);
    if !(c[s] <= c[t]) {
      s, t := t, s;
    }
  }

  ghost predicate HasLone(w: Weights)
    requires Frequencies(w)
  {
    exists s :: 0 <= s < SYMBOLS && Lone(w, s)
  }

  lemma {:induction false} ShortEnough(w: Weights)
    requires Frequencies(w)
    ensures Within(w, CodeBook(w), MAX_LENGTH)
  {
    forall s | 0 <= s < NODES && w[s] > 0
      ensures LengthsOf(CodeBook(w))[s] <= MAX_LENGTH
    {
      CodeWordsAreShort(w, s);
    }
  }

  /** init_vlc takes the tables of a frequency table exactly when at most 256 symbols occur, or all 257
      do and one of them was never merged. That one then has no code at all. */
  lemma {:induction false} InitVlcIff(w: Weights, bitsTab: seq<int>, lenTab: seq<int>)
    requires Frequencies(w) && TablesFor(w, bitsTab, lenTab) && Tabled(bitsTab, lenTab)
    ensures InitVlc(bitsTab, lenTab) <==> LiveCount(w) <= 256 || HasLone(w)
  {
    forall s | 0 <= s < SYMBOLS && lenTab[s] > 0
      ensures bitsTab[s] < Pow2(lenTab[s])
    {
      ValueBelow(CodeBook(w)[s]);
    }
    AtMostAllSymbols(w);
    if LiveCount(w) <= 256 || HasLone(w) {
      forall s, t | 0 <= s < SYMBOLS && 0 <= t < SYMBOLS
        ensures !Clash(bitsTab, lenTab, s, t)
      {
        NoClash(w, bitsTab, lenTab, s, t);
      }
    } else {
      var s, t := ClashInFirstTable(w, bitsTab, lenTab);
    }
  }

  lemma {:induction false} NoClash(w: Weights, bitsTab: seq<int>, lenTab: seq<int>, s: nat, t: nat)
    requires Frequencies(w) && TablesFor(w, bitsTab, lenTab) && Tabled(bitsTab, lenTab)
    requires s < SYMBOLS && t < SYMBOLS && (LiveCount(w) <= 256 || HasLone(w))
    ensures !Clash(bitsTab, lenTab, s, t)
  {
    AtMostAllSymbols(w);
    if s != t && CodeBook(w)[s] != [] {
      ClashIsPrefix(w, bitsTab, lenTab, s, t);
      if LiveCount(w) <= 256 {
        PrefixFreeIff(w);
        if w[s] == 0 || w[t] == 0 {
          DeadHaveNoCode(w, SYMBOLS, if w[s] == 0 then s else t);
        }
      } else {
        var x :| 0 <= x < SYMBOLS && Lone(w, x);
        NoClashBesideLone(w, x, s, t);
      }
    }
  }

  /** Where tables are refused, two codes claim the same entry of the first table: there init_vlc is
      sure to notice. */
  lemma {:induction false} ClashInFirstTable(w: Weights, bitsTab: seq<int>, lenTab: seq<int>) returns (s: nat, t: nat)
    requires Frequencies(w) && TablesFor(w, bitsTab, lenTab) && Tabled(bitsTab, lenTab)
    requires LiveCount(w) > 256 && !HasLone(w)
    ensures s < SYMBOLS && t < SYMBOLS && Clash(bitsTab, lenTab, s, t) && lenTab[s] <= VLC_BITS
  {
    AtMostAllSymbols(w);
    ShortEnough(w);
    assert forall x | 0 <= x < SYMBOLS && w[x] > 0 :: !Lone(w, x);
    s, t := TwoTreesClash(w, MAX_LENGTH);
    ClashIsPrefix(w, bitsTab, lenTab, s, t);
  }

  // ---------- which symbols stay by themselves ----------

  lemma {:induction false} NoneLeft(w: Weights)
    requires LiveCount(w) == 0
    ensures Sum(w) == 0
  {
    forall i | 0 <= i < NODES
      ensures w[i] == 0
    {
      SumAtLeastTerm(LiveTerms(w), i);
    }
    SumZero(w);
  }

  lemma {:induction false} LiveAtMostSum(w: Weights)
    ensures LiveCount(w) <= Sum(w)
  {
    SumMonotone(LiveTerms(w), w);
  }

  lemma {:induction false} Without(w: Weights, x: nat)
    requires x < NODES && w[x] > 0
    ensures Sum(w[x := 0]) == Sum(w) - w[x] && LiveCount(w[x := 0]) == LiveCount(w) - 1
  {
    SumUpdate(w, x, 0);
    CountWithout(w, x);
  }

  /** Besides the two lightest nodes, another one; what is left over weighs at least its number. */
  lemma {:induction false} ThirdLive(w: Weights, j: nat) returns (z: nat)
    requires Unused(w, j) && LiveCount(w) >= 3
    ensures CanMerge(w) && z < NODES && z != First(w) && z != Second(w) && w[z] >= w[Second(w)]
    ensures w[First(w)] + w[Second(w)] + w[z] + (LiveCount(w) - 3) <= Sum(w)
  {
    CanMergeIff(w);
    MergeShape(w, j);
    var u := w[First(w) := 0][Second(w) := 0];
    Without(w, First(w));
    Without(w[First(w) := 0], Second(w));
    if forall i | 0 <= i < NODES :: u[i] == 0 {
      SumZero(LiveTerms(u));
    }
    z :| 0 <= z < NODES && u[z] > 0;
    Without(u, z);
    LiveAtMostSum(u[z := 0]);
  }

  /** A symbol that stays by itself carries at least a third of the total. */
  lemma {:induction false} LoneIsHeavy(w: Weights, j: nat, x: nat)
    requires Unused(w, j) && x < j < NODES && LiveCount(w) == NODES - j + 2
    requires w[x] > 0 && Codes(w, j)[x] == []
    ensures Sum(w) <= 3 * w[x]
    decreases NODES - j
  {
    CanMergeIff(w);
    MergeShape(w, j);
    if j + 1 < NODES {
      MergeKeepsTotal(w, j);
      MergeDropsOne(w, j);
      LoneIsHeavy(Merge(w, j), j + 1, x);
    } else {
      var a, b := First(w), Second(w);
      Without(w, a);
      Without(w[a := 0], b);
      Without(w[a := 0][b := 0], x);
      NoneLeft(w[a := 0][b := 0][x := 0]);
    }
  }

  /** Tables in which all symbols occur, none of them with a third of the total, are refused. */
  lemma {:induction false} EvenTablesRefused(w: Weights, bitsTab: seq<int>, lenTab: seq<int>)
    requires Frequencies(w) && TablesFor(w, bitsTab, lenTab) && Tabled(bitsTab, lenTab)
    requires LiveCount(w) == 257 && forall s | 0 <= s < SYMBOLS :: 3 * w[s] < Sum(w)
    ensures !InitVlc(bitsTab, lenTab)
  {
    InitVlcIff(w, bitsTab, lenTab);
    if s :| 0 <= s < SYMBOLS && Lone(w, s) {
      LoneIsHeavy(w, SYMBOLS, s);
    }
  }

  /** The table in which every symbol occurs once is one of them. */
  lemma {:induction false} AllOnceRefused() returns (w: Weights)
    ensures Frequencies(w) && w == seq(NODES, i => if i < SYMBOLS then 1 else 0)
    ensures forall bitsTab, lenTab | Tabled(bitsTab, lenTab) && TablesFor(w, bitsTab, lenTab) :: !InitVlc(bitsTab, lenTab)
  {
    w := AllSymbolsOccur();
    forall bitsTab, lenTab | Tabled(bitsTab, lenTab) && TablesFor(w, bitsTab, lenTab)
      ensures !InitVlc(bitsTab, lenTab)
    {
      EvenTablesRefused(w, bitsTab, lenTab);
    }
  }

  /** A node about as heavy as all others together is never merged. */
  lemma {:induction false} HeavyStaysLone(w: Weights, j: nat, x: nat)
    requires Unused(w, j) && x < j < NODES && LiveCount(w) == NODES - j + 2
    requires w[x] > 0 && w[x] + 4 <= Sum(w) <= 2 * w[x] + 1
    requires j + 1 == NODES ==> forall y | 0 <= y < NODES && y != x && w[y] > 0 :: w[y] >= 2
    ensures Codes(w, j)[x] == []
    decreases NODES - j
  {
    CanMergeIff(w);
    MergeShape(w, j);
    var z := ThirdLive(w, j);
    assert x != First(w) && x != Second(w);
    if j + 1 < NODES {
      MergeKeepsTotal(w, j);
      MergeDropsOne(w, j);
      if j + 2 == NODES {
        LastFour(w, j, x);
      }
      HeavyStaysLone(Merge(w, j), j + 1, x);
    }
  }

  lemma {:induction false} LastFour(w: Weights, j: nat, x: nat)
    requires Unused(w, j) && x < j < NODES && LiveCount(w) == 4 && CanMerge(w)
    requires w[x] > 0 && x != First(w) && x != Second(w) && w[x] + 4 <= Sum(w)
    ensures forall y | 0 <= y < NODES && y != x && Merge(w, j)[y] > 0 :: Merge(w, j)[y] >= 2
  {
    MergeShape(w, j);
    var a, b := First(w), Second(w);
    forall y | 0 <= y < NODES && y != x && Merge(w, j)[y] > 0
      ensures Merge(w, j)[y] >= 2
    {
      if y != j {
        Without(w, a);
        Without(w[a := 0], b);
        Without(w[a := 0][b := 0], x);
        Without(w[a := 0][b := 0][x := 0], y);
        NoneLeft(w[a := 0][b := 0][x := 0][y := 0]);
      }
    }
  }

  /** A table with all symbols that is accepted: byte 0 occurs 255 times and all else once. The two
      trees are the byte, left without any code, and all the others. */
  lemma {:induction false} LoneTableAccepted() returns (w: Weights)
    ensures Frequencies(w) && LiveCount(w) == 257 && Lone(w, 0)
    ensures forall bitsTab, lenTab | Tabled(bitsTab, lenTab) && TablesFor(w, bitsTab, lenTab) ::
              InitVlc(bitsTab, lenTab) && lenTab[0] == 0
  {
    var ones := AllSymbolsOccur();
    w := ones[0 := 255];
    LoneTable(ones, w, 255);
    assert Lone(w, 0);
    forall bitsTab, lenTab | Tabled(bitsTab, lenTab) && TablesFor(w, bitsTab, lenTab)
      ensures InitVlc(bitsTab, lenTab) && lenTab[0] == 0
    {
      InitVlcIff(w, bitsTab, lenTab);
    }
  }

  lemma {:induction false} LoneTable(ones: Weights, w: Weights, n: nat)
    requires Frequencies(ones) && ones[0] == 1 && LiveCount(ones) == Sum(ones) == 257
    requires n == 255 && w == ones[0 := n]
    ensures Frequencies(w) && LiveCount(w) == 257 && Lone(w, 0)
  {
    SumUpdate(ones, 0, n);
    assert LiveTerms(w) == LiveTerms(ones);
    HeavyStaysLone(w, SYMBOLS, 0);
  }
}
