/**
 * `find_best_split`: the pixel whose cut has the smallest defined impurity,
 * ties going to the smallest pixel, or -1 when no cut is defined.
 */
module Split {
  import opened Wrappers
  import opened Datasets
  import opened Subsets
  import opened Impurities

  /**
   * The running minimum over the first n entries of `imps`: an entry replaces
   * the current choice only when it is defined and strictly smaller (every
   * defined impurity is below the initial INFINITY).
   */
  function FirstMinUpTo(imps: seq<Option<real>>, n: nat): (p: int)
    requires n <= |imps|
    ensures -1 <= p < n
    ensures p != -1 ==> imps[p].Some?
  {
    if n == 0 then -1
    else
      var prev := FirstMinUpTo(imps, n - 1);
      var g := imps[n - 1];
      if g.Some? && (prev == -1 || g.value < imps[prev].value) then n - 1 else prev
  }

  /**
   * Among the first n entries: the choice is -1 exactly when none is defined;
   * otherwise it is defined, at most every defined entry, and strictly below
   * every defined entry before it.
   */
  lemma {:induction false} FirstMinUpToIsFirstMin(imps: seq<Option<real>>, n: nat)
    requires n <= |imps|
    ensures var p := FirstMinUpTo(imps, n);
            && (p == -1 <==> forall q :: 0 <= q < n ==> imps[q].None?)
            && (p != -1 ==>
                  && (forall q :: 0 <= q < n && imps[q].Some? ==> imps[p].value <= imps[q].value)
                  && (forall q :: 0 <= q < p && imps[q].Some? ==> imps[p].value < imps[q].value))
  {
    if n != 0 {
      FirstMinUpToIsFirstMin(imps, n - 1);
    }
  }

  /** The impurities of the cuts at pixels 0..783 of the subset, in pixel order. */
  function CutImpurities(ds: Dataset, idx: seq<int>): (imps: seq<Option<real>>)
    requires Valid(ds) && ValidIndices(ds, idx)
    ensures |imps| == NumPixels
    ensures forall p :: 0 <= p < NumPixels ==> imps[p] == Impurity(ds, idx, p)
  {
    seq(NumPixels, p requires 0 <= p < NumPixels => Impurity(ds, idx, p))
  }

  /** The best split of the subset over all 784 pixels, or -1. */
  function BestSplit(ds: Dataset, idx: seq<int>): (p: int)
    requires Valid(ds) && ValidIndices(ds, idx)
    ensures -1 <= p < NumPixels
    ensures p != -1 ==> Impurity(ds, idx, p).Some?
  {
    FirstMinUpTo(CutImpurities(ds, idx), NumPixels)
  }

  /**
   * `find_best_split` returns -1 exactly when every pixel 0..783 has an
   * undefined impurity; otherwise a pixel whose impurity is defined, no larger
   * than any other defined impurity, and strictly smaller than that of every
   * lower pixel.
   */
  lemma BestSplitIsFirstMin(ds: Dataset, idx: seq<int>)
    requires Valid(ds) && ValidIndices(ds, idx)
    ensures var p := BestSplit(ds, idx);
            && (p == -1 <==> forall q :: 0 <= q < NumPixels ==> Impurity(ds, idx, q).None?)
            && (p != -1 ==>
                  && Impurity(ds, idx, p).Some?
                  && (forall q :: 0 <= q < NumPixels && Impurity(ds, idx, q).Some? ==>
                        Impurity(ds, idx, p).value <= Impurity(ds, idx, q).value)
                  && (forall q :: 0 <= q < p && Impurity(ds, idx, q).Some? ==>
                        Impurity(ds, idx, p).value < Impurity(ds, idx, q).value))
  {
    FirstMinUpToIsFirstMin(CutImpurities(ds, idx), NumPixels);
  }

  /**
   * When a split exists, both sides of its cut are non-empty, so each holds
   * strictly fewer indices than the subset, and together they hold all of them.
   */
  lemma SplitShrinks(ds: Dataset, idx: seq<int>)
    requires Valid(ds) && ValidIndices(ds, idx) && BestSplit(ds, idx) != -1
    ensures var p := BestSplit(ds, idx);
            && 0 <= p < NumPixels
            && 0 < |Filter(ds, idx, p, true)| < |idx|
            && 0 < |Filter(ds, idx, p, false)| < |idx|
            && |Filter(ds, idx, p, true)| + |Filter(ds, idx, p, false)| == |idx|
  {
    FilterPartition(ds, idx, BestSplit(ds, idx));
  }

  /**
   * `find_best_split`: scans pixels 0..783, keeping in `minImpurity` (None
   * standing for the initial INFINITY) the smallest defined impurity so far and
   * in `pixel` where it was found.
   */
  method FindBestSplit(ds: Dataset, M: int, indices: array<int>) returns (pixel: int)
    requires Valid(ds) && LabelsInRange(ds)
    requires 0 <= M <= indices.Length && ValidIndices(ds, indices[..M])
    ensures pixel == BestSplit(ds, indices[..M])
  {
    var minImpurity: Option<real> := None;
    pixel := -1;
    ghost var imps := CutImpurities(ds, indices[..M]);
    for i := 0 to NumPixels
      invariant pixel == FirstMinUpTo(imps, i)
      invariant minImpurity == if pixel == -1 then None else imps[pixel]
    {
      var impurity := GiniImpurity(ds, M, indices, i);
      if impurity.Some? && (minImpurity.None? || impurity.value < minImpurity.value) {
        minImpurity := impurity;
        pixel := i;
      }
    }
  }
}
