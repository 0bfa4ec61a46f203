/** Slices of slices. */
module Slices {
  lemma {:induction false} SliceOfSlice<T>(s: seq<T>, a: nat, b: nat, i: nat, j: nat)
    requires a <= b <= |s| && i <= j <= b - a
    ensures s[a..b][i..j] == s[a + i..a + j]
  {
    var whole := s[a..b];
    assert |whole[i..j]| == |s[a + i..a + j]|;
    forall k | 0 <= k < j - i
      ensures whole[i..j][k] == s[a + i..a + j][k]
    {
      assert whole[i..j][k] == whole[i + k];
    }
  }

  lemma {:induction false} SliceNext<T>(s: seq<T>, a: nat, b: nat)
    requires a <= b < |s|
    ensures s[a..b + 1] == s[a..b] + [s[b]]
  {
  }

  lemma {:induction false} SliceTail<T>(s: seq<T>, a: nat, b: nat)
    requires a < b <= |s|
    ensures s[a..b][0] == s[a] && s[a..b][1..] == s[a + 1..b]
  {
  }
}
