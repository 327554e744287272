/**
 * `build_subtree` and `build_dec_tree`: the recursive construction of the
 * decision tree over index subsets.
 */
module DecisionTree {
  import opened Wrappers
  import opened Datasets
  import opened Subsets
  import opened Impurities
  import opened Majority
  import opened Split

  /**
   * A node pointer: `Nil` is the null pointer. A leaf has a `classification`
   * label, `pixel` -1 and two null children; an internal node has
   * `classification` -1 and the split `pixel`; images whose intensity there is
   * below 128 go `left`, the others `right`.
   */
  datatype Tree = Nil | Node(classification: int, pixel: int, left: Tree, right: Tree)

  /** The node has no children, which is how the classifier recognises a leaf. */
  predicate IsLeaf(t: Tree)
    requires t.Node?
  {
    t.left == Nil && t.right == Nil
  }

  /**
   * The shape the builder promises: every leaf has pixel -1 and a label in
   * 0..9; every internal node has classification -1, a pixel in 0..783 and two
   * non-null children of the same shape.
   */
  predicate WellShaped(t: Tree) {
    match t
    case Nil => false
    case Node(c, p, l, r) =>
      if l == Nil && r == Nil then p == -1 && 0 <= c < NumLabels
      else c == -1 && 0 <= p < NumPixels && WellShaped(l) && WellShaped(r)
  }

  /** `count / M` as an exact real. */
  function Share(count: int, M: int): (r: real)
    requires M > 0
    ensures count <= M ==> r <= 1.0
    ensures r == 1.0 <==> count == M
  {
    count as real / M as real
  }

  /** The share of the subset taken by its most frequent label. */
  function Ratio(ds: Dataset, idx: seq<int>): real
    requires Valid(ds) && ValidIndices(ds, idx) && |idx| > 0
  {
    Share(MostFrequent(ds, idx).1, |idx|)
  }

  /**
   * The subtree `build_subtree` returns for the subset `idx`, or None where the
   * source would index an image at pixel -1 (no cut of the subset has a defined
   * impurity). The ratio of an empty subset is 0 / 0, a NaN, and a NaN ratio is
   * not `<= threshold`: an empty subset becomes a leaf.
   */
  function Build(ds: Dataset, idx: seq<int>, threshold: real): (t: Option<Tree>)
    requires Valid(ds) && LabelsInRange(ds) && ValidIndices(ds, idx)
    ensures t.Some? ==> t.value.Node?
    decreases |idx|
  {
    if |idx| != 0 && Ratio(ds, idx) <= threshold then
      var pixel := BestSplit(ds, idx);
      if pixel == -1 then None
      else
        SplitShrinks(ds, idx);
        var leftIdx := Filter(ds, idx, pixel, true);
        var rightIdx := Filter(ds, idx, pixel, false);
        var right := if |rightIdx| != 0 then Build(ds, rightIdx, threshold) else Some(Nil);
        var left := if |leftIdx| != 0 then Build(ds, leftIdx, threshold) else Some(Nil);
        if right.None? || left.None? then None
        else Some(Node(-1, pixel, left.value, right.value))
    else
      Some(Node(MostFrequent(ds, idx).0, -1, Nil, Nil))
  }

  /** The tree `build_dec_tree` returns: the subtree of all items 0 .. N - 1 in order. */
  function BuildTree(ds: Dataset, threshold: real): Option<Tree>
    requires Valid(ds) && LabelsInRange(ds)
  {
    Build(ds, Range(Size(ds)), threshold)
  }

  /**
   * A built subtree has the promised shape, and its root follows the leaf rule:
   * it is a leaf exactly when the subset is empty or its majority ratio exceeds
   * the threshold, and then holds the majority label; otherwise it splits on the
   * best pixel and its children are built from the two sides of that cut.
   */
  lemma {:induction false} BuildShape(ds: Dataset, idx: seq<int>, threshold: real)
    requires Valid(ds) && LabelsInRange(ds) && ValidIndices(ds, idx)
    requires Build(ds, idx, threshold).Some?
    ensures WellShaped(Build(ds, idx, threshold).value)
    ensures var t := Build(ds, idx, threshold).value;
            && (IsLeaf(t) <==> |idx| == 0 || Ratio(ds, idx) > threshold)
            && (IsLeaf(t) ==> t.classification == MostFrequent(ds, idx).0 && t.pixel == -1)
            && (!IsLeaf(t) ==>
                  && t.classification == -1
                  && t.pixel == BestSplit(ds, idx)
                  && Build(ds, Filter(ds, idx, t.pixel, true), threshold) == Some(t.left)
                  && Build(ds, Filter(ds, idx, t.pixel, false), threshold) == Some(t.right))
    decreases |idx|
  {
    MostFrequentIsSmallestMax(ds, idx);
    if |idx| != 0 && Ratio(ds, idx) <= threshold {
      var pixel := BestSplit(ds, idx);
      SplitShrinks(ds, idx);
      BuildShape(ds, Filter(ds, idx, pixel, true), threshold);
      BuildShape(ds, Filter(ds, idx, pixel, false), threshold);
    }
  }

  /**
   * A subset whose items all carry one label becomes a leaf with that label
   * whenever the threshold is below 1; at threshold 1 or more its ratio 1 does
   * not exceed the threshold and it is split.
   */
  lemma PureSubsetIsLeaf(ds: Dataset, idx: seq<int>, l: int, threshold: real)
    requires Valid(ds) && LabelsInRange(ds) && ValidIndices(ds, idx) && |idx| > 0
    requires forall k :: 0 <= k < |idx| ==> ds.labels[idx[k]] == l
    requires threshold < 1.0
    ensures Build(ds, idx, threshold) == Some(Node(l, -1, Nil, Nil))
  {
    MostFrequentOfSingleLabel(ds, idx, l);
  }

  /**
   * With a threshold of 1 or more no non-empty subset is ever a leaf, and the
   * recursion always ends in a subset with no defined cut: the build is
   * undefined for every non-empty subset.
   */
  lemma {:induction false} ThresholdOneNeverBuilds(ds: Dataset, idx: seq<int>, threshold: real)
    requires Valid(ds) && LabelsInRange(ds) && ValidIndices(ds, idx) && |idx| > 0
    requires threshold >= 1.0
    ensures Build(ds, idx, threshold).None?
    decreases |idx|
  {
    MostFrequentIsSmallestMax(ds, idx);
    assert Ratio(ds, idx) <= 1.0;
    var pixel := BestSplit(ds, idx);
    if pixel != -1 {
      SplitShrinks(ds, idx);
      ThresholdOneNeverBuilds(ds, Filter(ds, idx, pixel, false), threshold);
    }
  }

  /** Two items fall on the same side of the cut at every pixel. */
  predicate SameCuts(ds: Dataset, j: int, k: int)
    requires Valid(ds) && 0 <= j < Size(ds) && 0 <= k < Size(ds)
  {
    forall p :: 0 <= p < NumPixels ==> GoesLeft(ds, j, p) == GoesLeft(ds, k, p)
  }

  /** Items that no cut can tell apart carry the same label. */
  predicate Consistent(ds: Dataset)
    requires Valid(ds)
  {
    forall j, k :: 0 <= j < Size(ds) && 0 <= k < Size(ds) && SameCuts(ds, j, k) ==>
      ds.labels[j] == ds.labels[k]
  }

  /** A subset whose majority ratio is below 1 has a cut with a defined impurity, in a consistent dataset. */
  lemma MixedSubsetHasSplit(ds: Dataset, idx: seq<int>)
    requires Valid(ds) && LabelsInRange(ds) && Consistent(ds) && ValidIndices(ds, idx)
    requires |idx| > 0 && Ratio(ds, idx) < 1.0
    ensures BestSplit(ds, idx) != -1
  {
    var first := ds.labels[idx[0]];
    if forall k :: 0 <= k < |idx| ==> ds.labels[idx[k]] == first {
      MostFrequentOfSingleLabel(ds, idx, first);
    } else {
      var k :| 0 <= k < |idx| && ds.labels[idx[k]] != first;
      assert !SameCuts(ds, idx[0], idx[k]);
      var p :| 0 <= p < NumPixels && GoesLeft(ds, idx[0], p) != GoesLeft(ds, idx[k], p);
      ImpurityDefinedIff(ds, idx, p);
      if GoesLeft(ds, idx[0], p) {
        assert Impurity(ds, idx, p).Some?;
      } else {
        assert GoesLeft(ds, idx[k], p);
        assert Impurity(ds, idx, p).Some?;
      }
      BestSplitIsFirstMin(ds, idx);
    }
  }

  /**
   * When the threshold is below 1 and items that no cut tells apart carry the
   * same label, the build is defined on every subset: every subset it splits
   * has a cut with a defined impurity.
   */
  lemma {:induction false} BuildDefined(ds: Dataset, idx: seq<int>, threshold: real)
    requires Valid(ds) && LabelsInRange(ds) && Consistent(ds) && ValidIndices(ds, idx)
    requires threshold < 1.0
    ensures Build(ds, idx, threshold).Some?
    decreases |idx|
  {
    if |idx| != 0 && Ratio(ds, idx) <= threshold {
      MixedSubsetHasSplit(ds, idx);
      var pixel := BestSplit(ds, idx);
      SplitShrinks(ds, idx);
      BuildDefined(ds, Filter(ds, idx, pixel, true), threshold);
      BuildDefined(ds, Filter(ds, idx, pixel, false), threshold);
    }
  }

  /** The whole tree is defined under the same conditions. */
  lemma BuildTreeDefined(ds: Dataset, threshold: real)
    requires Valid(ds) && LabelsInRange(ds) && Consistent(ds) && threshold < 1.0
    ensures BuildTree(ds, threshold).Some?
  {
    BuildDefined(ds, Range(Size(ds)), threshold);
  }

  /**
   * The partition step of `build_subtree`: copies the indices of the subset
   * into two fresh arrays of length M, those whose image is below 128 at
   * `pixel` into `subLeftIndices` and the others into `subRightIndices`, each
   * in the original order, counting them in `left` and `right`.
   */
  method Partition(ds: Dataset, M: int, indices: array<int>, pixel: int)
    returns (subLeftIndices: array<int>, left: int, subRightIndices: array<int>, right: int)
    requires Valid(ds) && 0 <= pixel < NumPixels
    requires 0 <= M <= indices.Length && ValidIndices(ds, indices[..M])
    ensures 0 <= left <= subLeftIndices.Length && 0 <= right <= subRightIndices.Length
    ensures subLeftIndices[..left] == Filter(ds, indices[..M], pixel, true)
    ensures subRightIndices[..right] == Filter(ds, indices[..M], pixel, false)
    ensures left + right == M
  {
    subRightIndices := new int[M];
    subLeftIndices := new int[M];
    left, right := 0, 0;
    ghost var idx := indices[..M];
    assert idx[..M] == idx;
    for i := 0 to M
      invariant 0 <= left && 0 <= right && left + right == i
      invariant subLeftIndices.Length == M && subRightIndices.Length == M
      invariant subLeftIndices != subRightIndices
      invariant subLeftIndices[..left] == Filter(ds, idx[..i], pixel, true)
      invariant subRightIndices[..right] == Filter(ds, idx[..i], pixel, false)
    {
      var ind := indices[i];
      assert ind == idx[i];
      ghost var leftSoFar, rightSoFar := subLeftIndices[..left], subRightIndices[..right];
      if ds.images[ind][pixel] < 128 {
        FilterPrefixLeft(ds, idx, i, pixel);
        subLeftIndices[left] := ind;
        assert subLeftIndices[..left + 1] == leftSoFar + [ind];
        assert subRightIndices[..right] == rightSoFar;
        left := left + 1;
      } else {
        FilterPrefixRight(ds, idx, i, pixel);
        subRightIndices[right] := ind;
        assert subRightIndices[..right + 1] == rightSoFar + [ind];
        assert subLeftIndices[..left] == leftSoFar;
        right := right + 1;
      }
    }
  }

  /**
   * `build_subtree`: votes on the subset; when the majority ratio does not
   * exceed the threshold, finds the best split, partitions the subset by its
   * cut and builds the right then the left child from the non-empty sides;
   * otherwise (`flag` set to the majority label) makes a leaf. The caller must
   * not hand it a subset on which the build would index pixel -1.
   */
  method BuildSubtree(ds: Dataset, M: int, indices: array<int>, threshold: real) returns (node: Tree)
    requires Valid(ds) && LabelsInRange(ds)
    requires 0 <= M <= indices.Length && ValidIndices(ds, indices[..M])
    requires Build(ds, indices[..M], threshold).Some?
    ensures node == Build(ds, indices[..M], threshold).value
    decreases M
  {
    var bestLabel, frequency := GetMostFrequent(ds, M, indices);
    // A ratio of 0 / 0 is NaN, and NaN <= threshold is false.
    var split := M != 0 && Share(frequency, M) <= threshold;
    var flag := -1;
    var pixel := -1;
    var left, right := 0, 0;
    var subLeftIndices: array<int> := new int[0];
    var subRightIndices: array<int> := new int[0];
    if split {
      pixel := FindBestSplit(ds, M, indices);
      SplitShrinks(ds, indices[..M]);
      subLeftIndices, left, subRightIndices, right := Partition(ds, M, indices, pixel);
    } else {
      flag := bestLabel;
    }
    if flag != -1 {
      return Node(flag, -1, Nil, Nil);
    }
    var rightChild, leftChild := Nil, Nil;
    if right != 0 {
      rightChild := BuildSubtree(ds, right, subRightIndices, threshold);
    }
    if left != 0 {
      leftChild := BuildSubtree(ds, left, subLeftIndices, threshold);
    }
    node := Node(-1, pixel, leftChild, rightChild);
  }

  /** `build_dec_tree`: fills `indices` with 0 .. N - 1 and builds the subtree of all items. */
  method BuildDecTree(ds: Dataset, threshold: real) returns (root: Tree)
    requires Valid(ds) && LabelsInRange(ds)
    requires BuildTree(ds, threshold).Some?
    ensures root == BuildTree(ds, threshold).value
  {
    var M := Size(ds);
    var indices := new int[M];
    for i := 0 to M
      invariant indices[..i] == Range(i)
    {
      indices[i] := i;
    }
    assert indices[..M] == Range(M);
    root := BuildSubtree(ds, M, indices, threshold);
  }
}
