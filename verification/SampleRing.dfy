/** update_sample_display: the last samples are kept in a ring that is filled in wrapped chunks. */
module SampleRing {
  import opened Wrapping

  const SAMPLE_ARRAY_SIZE := 8 * 65536

  /** The ring and the index of its next sample. */
  datatype Ring = Ring(samples: seq<int>, index: nat) {
    ghost predicate Valid() {
      index < |samples|
    }
  }

  /** Storing one sample. */
  function Store(r: Ring, x: int): (s: Ring)
    requires r.Valid()
    ensures s.Valid() && |s.samples| == |r.samples|
  {
    Ring(r.samples[r.index := x], if r.index + 1 == |r.samples| then 0 else r.index + 1)
  }

  function StoreAll(r: Ring, xs: seq<int>): (s: Ring)
    requires r.Valid()
    ensures s.Valid() && |s.samples| == |r.samples|
  {
    if xs == [] then r else Store(StoreAll(r, xs[..|xs| - 1]), xs[|xs| - 1])
  }

  lemma {:induction false} StoreInTwo(r: Ring, xs: seq<int>, ys: seq<int>)
    requires r.Valid()
    ensures StoreAll(r, xs + ys) == StoreAll(StoreAll(r, xs), ys)
  {
    if ys == [] {
      assert xs + ys == xs;
    } else {
      var n := |ys| - 1;
      StoreInTwo(r, xs, ys[..n]);
      assert (xs + ys)[..|xs + ys| - 1] == xs + ys[..n];
    }
  }

  /** A chunk that does not pass the end of the ring is one block copy. */
  lemma {:induction false} StoreChunk(r: Ring, xs: seq<int>)
    requires r.Valid() && r.index + |xs| <= |r.samples|
    ensures StoreAll(r, xs) == Ring(r.samples[..r.index] + xs + r.samples[r.index + |xs|..],
                                    if r.index + |xs| == |r.samples| && xs != [] then 0 else r.index + |xs|)
  {
    if xs != [] {
      var n := |xs| - 1;
      StoreChunk(r, xs[..n]);
      var before, after := StoreAll(r, xs[..n]), StoreAll(r, xs);
      assert before.index == r.index + n;
      assert after.samples == r.samples[..r.index] + xs + r.samples[r.index + |xs|..];
    } else {
      assert r.samples == r.samples[..r.index] + xs + r.samples[r.index + |xs|..];
    }
  }

  lemma {:induction false} IndexAfter(r: Ring, xs: seq<int>)
    requires r.Valid()
    ensures StoreAll(r, xs).index == Wrap(r.index + |xs|, |r.samples|)
  {
    if xs != [] {
      IndexAfter(r, xs[..|xs| - 1]);
      WrapNext(r.index + |xs| - 1, |r.samples|);
    }
  }

  /** Of a batch, the ring keeps the newest samples, as many as it has places: sample k then lies
      k places after the old index, counted round the ring. */
  lemma {:induction false} NewestAreKept(r: Ring, xs: seq<int>, k: nat)
    requires r.Valid() && k < |xs| && |xs| - k <= |r.samples|
    ensures StoreAll(r, xs).samples[Wrap(r.index + k, |r.samples|)] == xs[k]
    decreases |xs|
  {
    var n := |xs| - 1;
    IndexAfter(r, xs[..n]);
    if k < n {
      NewestAreKept(r, xs[..n], k);
      WrapApart(r.index + k, r.index + n, |r.samples|);
    }
  }

  lemma {:induction false} NextChunk(start: Ring, before: Ring, samples: seq<int>, pos: nat, len: nat)
    requires start.Valid() && pos + len <= |samples| && 0 < len && before == StoreAll(start, samples[..pos])
    requires before.index + len <= |before.samples|
    ensures StoreAll(start, samples[..pos + len])
            == Ring(before.samples[..before.index] + samples[pos..pos + len] + before.samples[before.index + len..],
                    if before.index + len == |before.samples| then 0 else before.index + len)
  {
    StoreChunk(before, samples[pos..pos + len]);
    StoreInTwo(start, samples[..pos], samples[pos..pos + len]);
    assert samples[..pos] + samples[pos..pos + len] == samples[..pos + len];
  }

  class VideoState {
    var sampleArray: array<int>
    var sampleArrayIndex: nat

    constructor ()
      ensures Valid() && fresh(sampleArray) && sampleArrayIndex == 0
    {
      sampleArray := new int[SAMPLE_ARRAY_SIZE](_ => 0);
      sampleArrayIndex := 0;
    }

    ghost predicate Valid()
      reads this
    {
      sampleArray.Length == SAMPLE_ARRAY_SIZE && sampleArrayIndex < SAMPLE_ARRAY_SIZE
    }

    ghost function Contents(): Ring
      reads this, sampleArray
    {
      Ring(sampleArray[..], sampleArrayIndex)
    }

    /** The block copy of one chunk. */
    method CopyChunk(samples: seq<int>)
      requires Valid() && sampleArrayIndex + |samples| <= SAMPLE_ARRAY_SIZE
      modifies sampleArray
      ensures sampleArray[..] == old(sampleArray[..sampleArrayIndex]) + samples
                                 + old(sampleArray[sampleArrayIndex + |samples|..])
    {
      forall k | 0 <= k < |samples| {
        sampleArray[sampleArrayIndex + k] := samples[k];
      }
    }

    /** Any batch, also one longer than the ring, is stored as if sample by sample. */
    method UpdateSampleDisplay(samples: seq<int>)
      requires Valid()
      modifies this`sampleArrayIndex, sampleArray
      ensures Valid() && Contents() == StoreAll(old(Contents()), samples)
    {
      var size, pos := |samples|, 0;
      ghost var start := Contents();
      while size > 0
        invariant Valid() && 0 <= pos <= |samples| && pos + size == |samples|
        invariant Contents() == StoreAll(start, samples[..pos])
        decreases size
      {
        var len := SAMPLE_ARRAY_SIZE - sampleArrayIndex;
        if len > size {
          len := size;
        }
        ghost var before := Contents();
        CopyChunk(samples[pos..pos + len]);
        NextChunk(start, before, samples, pos, len);
        pos := pos + len;
        sampleArrayIndex := sampleArrayIndex + len;
        if sampleArrayIndex >= SAMPLE_ARRAY_SIZE {
          sampleArrayIndex := 0;
        }
        size := size - len;
      }
      assert samples[..pos] == samples;
    }
  }
}
