/**
 * `get_most_frequent`: the most frequent label of a subset and its frequency,
 * ties going to the smallest label.
 */
module Majority {
  import opened Datasets
  import opened Subsets

  /**
   * The scan of the first `n` slots of a histogram, starting from label 0 with
   * frequency 0 and moving to a later label only when its count is strictly larger.
   */
  function MaxUpTo(counts: seq<nat>, n: nat): (v: (int, nat))
    requires n <= |counts|
  {
    if n == 0 then (0, 0)
    else
      var prev := MaxUpTo(counts, n - 1);
      if counts[n - 1] > prev.1 then (n - 1, counts[n - 1]) else prev
  }

  /** The most frequent label of `idx` and its frequency. */
  function MostFrequent(ds: Dataset, idx: seq<int>): (int, nat)
    requires Valid(ds) && ValidIndices(ds, idx)
  {
    MaxUpTo(Counts(ds, idx), NumLabels)
  }

  /**
   * The scan returns a label among the first `n` (label 0 when all are empty)
   * whose frequency is its count, no scanned label has a larger count, and every
   * smaller label has a strictly smaller one.
   */
  lemma {:induction false} MaxUpToIsFirstMax(counts: seq<nat>, n: nat)
    requires 0 < n <= |counts|
    ensures 0 <= MaxUpTo(counts, n).0 < n
    ensures MaxUpTo(counts, n).1 == counts[MaxUpTo(counts, n).0]
    ensures forall l :: 0 <= l < n ==> counts[l] <= MaxUpTo(counts, n).1
    ensures forall l :: 0 <= l < MaxUpTo(counts, n).0 ==> counts[l] < MaxUpTo(counts, n).1
  {
    if n > 1 {
      MaxUpToIsFirstMax(counts, n - 1);
    }
  }

  /**
   * The majority vote: a label in 0..9 whose frequency is its count in the
   * subset, no label is counted more often, and among the labels with the
   * maximal count it is the smallest.
   */
  lemma MostFrequentIsSmallestMax(ds: Dataset, idx: seq<int>)
    requires Valid(ds) && ValidIndices(ds, idx)
    ensures 0 <= MostFrequent(ds, idx).0 < NumLabels
    ensures MostFrequent(ds, idx).1 == CountLabel(ds, idx, MostFrequent(ds, idx).0)
    ensures forall l :: 0 <= l < NumLabels ==> CountLabel(ds, idx, l) <= MostFrequent(ds, idx).1
    ensures forall l :: 0 <= l < MostFrequent(ds, idx).0 ==>
              CountLabel(ds, idx, l) < MostFrequent(ds, idx).1
  {
    var counts := Counts(ds, idx);
    MaxUpToIsFirstMax(counts, NumLabels);
    assert forall l :: 0 <= l < NumLabels ==> counts[l] == CountLabel(ds, idx, l);
  }

  /** In a non-empty subset with labels in 0..9, the majority label occurs at least once. */
  lemma MostFrequentOccurs(ds: Dataset, idx: seq<int>)
    requires Valid(ds) && LabelsInRange(ds) && ValidIndices(ds, idx) && |idx| > 0
    ensures MostFrequent(ds, idx).1 >= 1
  {
    MostFrequentIsSmallestMax(ds, idx);
    CountMember(ds, idx, 0);
  }

  /** When every item of a non-empty subset carries label `l`, the vote is `l` with frequency M. */
  lemma MostFrequentOfSingleLabel(ds: Dataset, idx: seq<int>, l: int)
    requires Valid(ds) && LabelsInRange(ds) && ValidIndices(ds, idx) && |idx| > 0
    requires forall k :: 0 <= k < |idx| ==> ds.labels[idx[k]] == l
    ensures MostFrequent(ds, idx) == (l, |idx|)
  {
    MostFrequentIsSmallestMax(ds, idx);
    CountSingleLabel(ds, idx, l, MostFrequent(ds, idx).0);
    assert 0 <= l < NumLabels && CountLabel(ds, idx, l) == |idx|;
  }

  /**
   * `get_most_frequent`: fills the histogram `allFreq` in one pass over the
   * subset, then scans it for the first maximal slot.
   */
  method GetMostFrequent(ds: Dataset, M: int, indices: array<int>) returns (bestLabel: int, freq: int)
    requires Valid(ds) && LabelsInRange(ds)
    requires 0 <= M <= indices.Length && ValidIndices(ds, indices[..M])
    ensures 0 <= bestLabel < NumLabels && freq == CountLabel(ds, indices[..M], bestLabel)
    ensures forall l :: 0 <= l < NumLabels ==> CountLabel(ds, indices[..M], l) <= freq
    ensures forall l :: 0 <= l < bestLabel ==> CountLabel(ds, indices[..M], l) < freq
    ensures (bestLabel, freq) == MostFrequent(ds, indices[..M])
  {
    var allFreq: seq<nat> := seq(NumLabels, _ => 0);
    for i := 0 to M
      invariant allFreq == Counts(ds, indices[..i])
    {
      var num := indices[i];
      assert indices[..i + 1] == indices[..i] + [num];
      CountsSnoc(ds, indices[..i], num);
      var imgLabel := ds.labels[num];
      allFreq := allFreq[imgLabel := allFreq[imgLabel] + 1];
    }
    assert indices[..M] == indices[..M][..M];
    var maxLabel, maxFreq := 0, 0;
    for i := 0 to NumLabels
      invariant (maxLabel, maxFreq) == MaxUpTo(allFreq, i)
    {
      if allFreq[i] > maxFreq {
        maxFreq := allFreq[i];
        maxLabel := i;
      }
    }
    MostFrequentIsSmallestMax(ds, indices[..M]);
    bestLabel, freq := maxLabel, maxFreq;
  }
}
