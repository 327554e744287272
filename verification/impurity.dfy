/**
 * `gini_impurity`: the size-weighted Gini impurity of the two groups into which
 * the cut at one pixel divides a subset. The source returns NaN when a group is
 * empty (0 / 0); here that result is `None`, and every defined result is an
 * exact real.
 */
module Impurities {
  import opened Wrappers
  import opened Datasets
  import opened Subsets

  /** p * (1 - p) for the share p = count / size of one label in a group. */
  function GiniTerm(count: int, size: int): real
    requires size > 0
  {
    var p := count as real / size as real;
    p * (1.0 - p)
  }

  /** The sum of the Gini terms of the first `n` labels of a histogram. */
  function GiniSum(counts: seq<int>, size: int, n: nat): real
    requires n <= |counts| && size > 0
  {
    if n == 0 then 0.0 else GiniSum(counts, size, n - 1) + GiniTerm(counts[n - 1], size)
  }

  /** The Gini impurity of a non-empty group: the sum over the 10 labels of p * (1 - p). */
  function Gini(ds: Dataset, group: seq<int>): real
    requires Valid(ds) && ValidIndices(ds, group) && |group| > 0
  {
    GiniSum(Counts(ds, group), |group|, NumLabels)
  }

  /** The average of two group impurities weighted by the group sizes. */
  function Weighted(aGini: real, aCount: nat, bGini: real, bCount: nat, M: nat): real
    requires M > 0
  {
    (aGini * aCount as real + bGini * bCount as real) / M as real
  }

  /**
   * The impurity of the cut at `pixel` over the subset `idx`: undefined when
   * either side is empty, otherwise (giniA * |A| + giniB * |B|) / M.
   */
  function Impurity(ds: Dataset, idx: seq<int>, pixel: int): Option<real>
    requires Valid(ds) && ValidIndices(ds, idx) && 0 <= pixel < NumPixels
  {
    var a := Filter(ds, idx, pixel, true);
    var b := Filter(ds, idx, pixel, false);
    if |a| == 0 || |b| == 0 then None
    else Some(Weighted(Gini(ds, a), |a|, Gini(ds, b), |b|, |idx|))
  }

  /**
   * The label histogram of the entries of `idx` on the `left` side of the cut
   * at `pixel`, counted in one pass over `idx` as `gini_impurity` does.
   */
  function SideCounts(ds: Dataset, idx: seq<int>, pixel: int, left: bool): (counts: seq<int>)
    requires Valid(ds) && LabelsInRange(ds) && ValidIndices(ds, idx) && 0 <= pixel < NumPixels
    ensures |counts| == NumLabels
  {
    if |idx| == 0 then seq(NumLabels, _ => 0)
    else
      var c := SideCounts(ds, idx[..|idx| - 1], pixel, left);
      var j := idx[|idx| - 1];
      if GoesLeft(ds, j, pixel) == left then c[ds.labels[j] := c[ds.labels[j]] + 1] else c
  }

  /** Counting one side in one pass gives the histogram of that side of the cut. */
  lemma {:induction false} SideCountsIsCounts(ds: Dataset, idx: seq<int>, pixel: int, left: bool)
    requires Valid(ds) && LabelsInRange(ds) && ValidIndices(ds, idx) && 0 <= pixel < NumPixels
    ensures SideCounts(ds, idx, pixel, left) == Counts(ds, Filter(ds, idx, pixel, left))
  {
    if |idx| == 0 {
      assert Counts(ds, []) == seq(NumLabels, _ => 0);
    } else {
      var init := idx[..|idx| - 1];
      SideCountsIsCounts(ds, init, pixel, left);
      if GoesLeft(ds, idx[|idx| - 1], pixel) == left {
        CountsSnoc(ds, Filter(ds, init, pixel, left), idx[|idx| - 1]);
      }
    }
  }

  /** One more entry of the prefix: its side's histogram gains one at its label. */
  lemma SideCountsStep(ds: Dataset, idx: seq<int>, i: int, pixel: int, left: bool)
    requires Valid(ds) && LabelsInRange(ds) && ValidIndices(ds, idx) && 0 <= i < |idx| && 0 <= pixel < NumPixels
    ensures SideCounts(ds, idx[..i + 1], pixel, left)
            == if GoesLeft(ds, idx[i], pixel) == left
               then SideCounts(ds, idx[..i], pixel, left)[ds.labels[idx[i]] := SideCounts(ds, idx[..i], pixel, left)[ds.labels[idx[i]]] + 1]
               else SideCounts(ds, idx[..i], pixel, left)
  {
    assert idx[..i + 1][..i] == idx[..i];
  }

  /** An entry below 128 at the cut: the left tallies grow by it, the right ones stay. */
  lemma TallyLeft(ds: Dataset, idx: seq<int>, i: int, pixel: int)
    requires Valid(ds) && LabelsInRange(ds) && ValidIndices(ds, idx) && 0 <= i < |idx| && 0 <= pixel < NumPixels
    requires ds.images[idx[i]][pixel] < 128
    ensures SideCounts(ds, idx[..i + 1], pixel, true)
            == SideCounts(ds, idx[..i], pixel, true)[ds.labels[idx[i]] := SideCounts(ds, idx[..i], pixel, true)[ds.labels[idx[i]]] + 1]
    ensures SideCounts(ds, idx[..i + 1], pixel, false) == SideCounts(ds, idx[..i], pixel, false)
    ensures |Filter(ds, idx[..i + 1], pixel, true)| == |Filter(ds, idx[..i], pixel, true)| + 1
    ensures |Filter(ds, idx[..i + 1], pixel, false)| == |Filter(ds, idx[..i], pixel, false)|
  {
    SideCountsStep(ds, idx, i, pixel, true);
    SideCountsStep(ds, idx, i, pixel, false);
    FilterPrefixLeft(ds, idx, i, pixel);
  }

  /** An entry at or above 128 at the cut: the right tallies grow by it, the left ones stay. */
  lemma TallyRight(ds: Dataset, idx: seq<int>, i: int, pixel: int)
    requires Valid(ds) && LabelsInRange(ds) && ValidIndices(ds, idx) && 0 <= i < |idx| && 0 <= pixel < NumPixels
    requires 128 <= ds.images[idx[i]][pixel]
    ensures SideCounts(ds, idx[..i + 1], pixel, true) == SideCounts(ds, idx[..i], pixel, true)
    ensures SideCounts(ds, idx[..i + 1], pixel, false)
            == SideCounts(ds, idx[..i], pixel, false)[ds.labels[idx[i]] := SideCounts(ds, idx[..i], pixel, false)[ds.labels[idx[i]]] + 1]
    ensures |Filter(ds, idx[..i + 1], pixel, true)| == |Filter(ds, idx[..i], pixel, true)|
    ensures |Filter(ds, idx[..i + 1], pixel, false)| == |Filter(ds, idx[..i], pixel, false)| + 1
  {
    SideCountsStep(ds, idx, i, pixel, true);
    SideCountsStep(ds, idx, i, pixel, false);
    FilterPrefixRight(ds, idx, i, pixel);
  }

  /**
   * The second loop of `gini_impurity`: sums p * (1 - p) over the 10 label
   * shares of each side.
   */
  method GiniSums(aFreq: seq<int>, aCount: int, bFreq: seq<int>, bCount: int) returns (aGini: real, bGini: real)
    requires |aFreq| == NumLabels && |bFreq| == NumLabels && aCount > 0 && bCount > 0
    ensures aGini == GiniSum(aFreq, aCount, NumLabels) && bGini == GiniSum(bFreq, bCount, NumLabels)
  {
    aGini, bGini := 0.0, 0.0;
    for i := 0 to NumLabels
      invariant aGini == GiniSum(aFreq, aCount, i)
      invariant bGini == GiniSum(bFreq, bCount, i)
    {
      aGini := aGini + GiniTerm(aFreq[i], aCount);
      bGini := bGini + GiniTerm(bFreq[i], bCount);
    }
  }

  /**
   * The first loop of `gini_impurity`: one pass over the subset that tallies
   * the labels and the sizes of the two sides of the cut at `pixel`.
   */
  method TallySides(ds: Dataset, M: int, indices: array<int>, pixel: int)
    returns (aFreq: seq<int>, aCount: int, bFreq: seq<int>, bCount: int)
    requires Valid(ds) && LabelsInRange(ds)
    requires 0 <= M <= indices.Length && ValidIndices(ds, indices[..M])
    requires 0 <= pixel < NumPixels
    ensures aFreq == Counts(ds, Filter(ds, indices[..M], pixel, true))
    ensures bFreq == Counts(ds, Filter(ds, indices[..M], pixel, false))
    ensures aCount == |Filter(ds, indices[..M], pixel, true)|
    ensures bCount == |Filter(ds, indices[..M], pixel, false)|
  {
    aFreq, bFreq := seq(NumLabels, _ => 0), seq(NumLabels, _ => 0);
    aCount, bCount := 0, 0;
    ghost var idx := indices[..M];
    assert idx[..M] == idx;
    for i := 0 to M
      invariant aCount == |Filter(ds, idx[..i], pixel, true)|
      invariant bCount == |Filter(ds, idx[..i], pixel, false)|
      invariant aFreq == SideCounts(ds, idx[..i], pixel, true)
      invariant bFreq == SideCounts(ds, idx[..i], pixel, false)
    {
      var imgIdx := indices[i];
      assert imgIdx == idx[i];
      if ds.images[imgIdx][pixel] < 128 {
        TallyLeft(ds, idx, i, pixel);
        aFreq := aFreq[ds.labels[imgIdx] := aFreq[ds.labels[imgIdx]] + 1];
        aCount := aCount + 1;
      } else {
        TallyRight(ds, idx, i, pixel);
        bFreq := bFreq[ds.labels[imgIdx] := bFreq[ds.labels[imgIdx]] + 1];
        bCount := bCount + 1;
      }
    }
    SideCountsIsCounts(ds, idx, pixel, true);
    SideCountsIsCounts(ds, idx, pixel, false);
  }

  /**
   * `gini_impurity`: tallies the labels of each side of the cut, then sums
   * the Gini terms of each side and weights them by the side sizes. A side
   * with no items makes every share 0 / 0, so the whole result is NaN: the
   * method returns `None` as soon as the tallies show it.
   */
  method GiniImpurity(ds: Dataset, M: int, indices: array<int>, pixel: int) returns (g: Option<real>)
    requires Valid(ds) && LabelsInRange(ds)
    requires 0 <= M <= indices.Length && ValidIndices(ds, indices[..M])
    requires 0 <= pixel < NumPixels
    ensures g == Impurity(ds, indices[..M], pixel)
  {
    var aFreq, aCount, bFreq, bCount := TallySides(ds, M, indices, pixel);
    if aCount == 0 || bCount == 0 {
      return None;
    }
    var aGini, bGini := GiniSums(aFreq, aCount, bFreq, bCount);
    g := Some(Weighted(aGini, aCount, bGini, bCount, M));
  }

  /** Every entry of the group carries the same label. */
  predicate SingleLabel(ds: Dataset, group: seq<int>)
    requires Valid(ds) && ValidIndices(ds, group)
  {
    forall k :: 0 <= k < |group| ==> ds.labels[group[k]] == ds.labels[group[0]]
  }

  /**
   * The impurity of a cut is defined (not NaN) exactly when some item of the
   * subset falls below 128 at that pixel and some item falls at or above it.
   */
  lemma ImpurityDefinedIff(ds: Dataset, idx: seq<int>, pixel: int)
    requires Valid(ds) && ValidIndices(ds, idx) && 0 <= pixel < NumPixels
    ensures Impurity(ds, idx, pixel).Some? <==>
              (exists k :: 0 <= k < |idx| && GoesLeft(ds, idx[k], pixel)) &&
              (exists k :: 0 <= k < |idx| && !GoesLeft(ds, idx[k], pixel))
  {
    var a := Filter(ds, idx, pixel, true);
    var b := Filter(ds, idx, pixel, false);
    if |a| != 0 {
      FilterMembers(ds, idx, pixel, true, a[0]);
    }
    if |b| != 0 {
      FilterMembers(ds, idx, pixel, false, b[0]);
    }
    if k :| 0 <= k < |idx| && GoesLeft(ds, idx[k], pixel) {
      FilterMembers(ds, idx, pixel, true, idx[k]);
    }
    if k :| 0 <= k < |idx| && !GoesLeft(ds, idx[k], pixel) {
      FilterMembers(ds, idx, pixel, false, idx[k]);
    }
  }

  /** A share between 0 and 1 has a non-negative Gini term, zero only at 0 and 1. */
  lemma GiniTermRange(count: int, size: int)
    requires 0 <= count <= size && size > 0
    ensures GiniTerm(count, size) >= 0.0
    ensures GiniTerm(count, size) == 0.0 <==> count == 0 || count == size
  {
  }

  /** A histogram whose slots lie between 0 and the group size has a non-negative Gini sum. */
  lemma {:induction false} GiniSumNonNegative(counts: seq<int>, size: int, n: nat)
    requires n <= |counts| && size > 0
    requires forall l :: 0 <= l < |counts| ==> 0 <= counts[l] <= size
    ensures GiniSum(counts, size, n) >= 0.0
  {
    if n != 0 {
      GiniSumNonNegative(counts, size, n - 1);
      GiniTermRange(counts[n - 1], size);
    }
  }

  /** The Gini sum is zero exactly when every slot is empty or holds the whole group. */
  lemma {:induction false} GiniSumZeroIff(counts: seq<int>, size: int, n: nat)
    requires n <= |counts| && size > 0
    requires forall l :: 0 <= l < |counts| ==> 0 <= counts[l] <= size
    ensures GiniSum(counts, size, n) == 0.0 <==>
              forall l :: 0 <= l < n ==> counts[l] == 0 || counts[l] == size
  {
    if n != 0 {
      GiniSumNonNegative(counts, size, n - 1);
      GiniSumZeroIff(counts, size, n - 1);
      GiniTermRange(counts[n - 1], size);
    }
  }

  /** The Gini impurity of a group is non-negative, and zero exactly when the group carries one label. */
  lemma GiniZeroIffSingleLabel(ds: Dataset, group: seq<int>)
    requires Valid(ds) && LabelsInRange(ds) && ValidIndices(ds, group) && |group| > 0
    ensures Gini(ds, group) >= 0.0
    ensures Gini(ds, group) == 0.0 <==> SingleLabel(ds, group)
  {
    var counts := Counts(ds, group);
    GiniSumNonNegative(counts, |group|, NumLabels);
    GiniSumZeroIff(counts, |group|, NumLabels);
    var first := ds.labels[group[0]];
    if Gini(ds, group) == 0.0 {
      CountMember(ds, group, 0);
      assert counts[first] != 0;
      CountAllMeansSingleLabel(ds, group, first);
    }
    if SingleLabel(ds, group) {
      forall l | 0 <= l < NumLabels
        ensures counts[l] == 0 || counts[l] == |group|
      {
        CountSingleLabel(ds, group, first, l);
      }
    }
  }

  /** A size-weighted average of two non-negative values with positive weights is zero only when both are. */
  lemma WeightedZeroIff(aGini: real, aCount: nat, bGini: real, bCount: nat, M: nat)
    requires aGini >= 0.0 && bGini >= 0.0 && aCount > 0 && bCount > 0 && M > 0
    ensures Weighted(aGini, aCount, bGini, bCount, M) >= 0.0
    ensures Weighted(aGini, aCount, bGini, bCount, M) == 0.0 <==> aGini == 0.0 && bGini == 0.0
  {
  }

  /**
   * A defined impurity is non-negative, and it is zero exactly when each of the
   * two groups carries a single label.
   */
  lemma ImpurityZeroIff(ds: Dataset, idx: seq<int>, pixel: int)
    requires Valid(ds) && LabelsInRange(ds) && ValidIndices(ds, idx) && 0 <= pixel < NumPixels
    requires Impurity(ds, idx, pixel).Some?
    ensures Impurity(ds, idx, pixel).value >= 0.0
    ensures Impurity(ds, idx, pixel).value == 0.0 <==>
              SingleLabel(ds, Filter(ds, idx, pixel, true)) &&
              SingleLabel(ds, Filter(ds, idx, pixel, false))
  {
    var a := Filter(ds, idx, pixel, true);
    var b := Filter(ds, idx, pixel, false);
    GiniZeroIffSingleLabel(ds, a);
    GiniZeroIffSingleLabel(ds, b);
    WeightedZeroIff(Gini(ds, a), |a|, Gini(ds, b), |b|, |idx|);
  }
}
