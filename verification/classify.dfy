/** `dec_tree_classify`: the walk from the root to a leaf for one image. */
module Classifier {
  import opened Wrappers
  import opened Datasets
  import opened Subsets
  import opened Majority
  import opened Split
  import opened DecisionTree

  /**
   * The walk for `img` never follows a null child and never reads a pixel
   * outside the image: every node it reaches is non-null, and every internal
   * one has a pixel inside the image.
   */
  predicate Walkable(t: Tree, img: seq<Byte>) {
    match t
    case Nil => false
    case Node(_, p, l, r) =>
      (l == Nil && r == Nil) ||
      (0 <= p < |img| && Walkable(if img[p] < 128 then l else r, img))
  }

  /** The classification of the leaf the walk for `img` reaches. */
  function Predict(t: Tree, img: seq<Byte>): int
    requires Walkable(t, img)
  {
    if t.left == Nil && t.right == Nil then t.classification
    else Predict(if img[t.pixel] < 128 then t.left else t.right, img)
  }

  /**
   * `dec_tree_classify`: moves `root` down while the current node has a child,
   * left when the image is below 128 at the node's pixel and right otherwise,
   * and returns the classification of the node where it stops.
   */
  method DecTreeClassify(root: Tree, img: seq<Byte>) returns (result: int)
    requires Walkable(root, img)
    ensures result == Predict(root, img)
  {
    var node := root;
    while node.left != Nil || node.right != Nil
      invariant Walkable(node, img)
      invariant Predict(node, img) == Predict(root, img)
      decreases node
    {
      var checkPixel := node.pixel;
      var checkImgPixel := img[checkPixel];
      if checkImgPixel < 128 {
        node := node.left;
      } else {
        node := node.right;
      }
    }
    result := node.classification;
  }

  /**
   * Every image with all its pixels can be classified by a tree of the shape
   * the builder promises, and the result is a label in 0..9.
   */
  lemma {:induction false} WellShapedClassifies(t: Tree, img: seq<Byte>)
    requires WellShaped(t) && |img| == NumPixels
    ensures Walkable(t, img)
    ensures 0 <= Predict(t, img) < NumLabels
  {
    if t.left != Nil || t.right != Nil {
      WellShapedClassifies(t.left, img);
      WellShapedClassifies(t.right, img);
    }
  }

  /**
   * A tree `build_dec_tree` returns classifies every 784-pixel image, seen in
   * training or not, without following a null child, into a label in 0..9.
   */
  lemma BuiltTreeClassifies(ds: Dataset, threshold: real, img: seq<Byte>)
    requires Valid(ds) && LabelsInRange(ds) && BuildTree(ds, threshold).Some?
    requires |img| == NumPixels
    ensures Walkable(BuildTree(ds, threshold).value, img)
    ensures 0 <= Predict(BuildTree(ds, threshold).value, img) < NumLabels
  {
    BuildShape(ds, Range(Size(ds)), threshold);
    WellShapedClassifies(BuildTree(ds, threshold).value, img);
  }

  /**
   * The subset whose leaf the walk for `img` reaches: while the builder splits
   * the subset on its best pixel, follow the side of the cut `img` falls on.
   */
  function Reached(ds: Dataset, idx: seq<int>, threshold: real, img: seq<Byte>): (leaf: seq<int>)
    requires Valid(ds) && LabelsInRange(ds) && ValidIndices(ds, idx) && |img| == NumPixels
    ensures ValidIndices(ds, leaf) && |leaf| <= |idx|
    decreases |idx|
  {
    if |idx| != 0 && Ratio(ds, idx) <= threshold && BestSplit(ds, idx) != -1 then
      var p := BestSplit(ds, idx);
      SplitShrinks(ds, idx);
      Reached(ds, Filter(ds, idx, p, img[p] < 128), threshold, img)
    else
      idx
  }

  /**
   * Classifying any 784-pixel image with the tree built from `idx` returns the
   * majority label of the subset `Reached` follows the image to. That subset
   * lies inside `idx`, the builder made it a leaf with its majority label, and
   * it is empty only when `idx` is; a non-empty one has a ratio above the
   * threshold.
   */
  lemma {:induction false} PredictIsReachedMajority(ds: Dataset, idx: seq<int>, threshold: real, img: seq<Byte>)
    requires Valid(ds) && LabelsInRange(ds) && ValidIndices(ds, idx)
    requires Build(ds, idx, threshold).Some? && |img| == NumPixels
    ensures Walkable(Build(ds, idx, threshold).value, img)
    ensures var leaf := Reached(ds, idx, threshold, img);
            && (forall x :: x in leaf ==> x in idx)
            && (|leaf| == 0 <==> |idx| == 0)
            && (|leaf| > 0 ==> Ratio(ds, leaf) > threshold)
            && Build(ds, leaf, threshold) == Some(Node(MostFrequent(ds, leaf).0, -1, Nil, Nil))
            && Predict(Build(ds, idx, threshold).value, img) == MostFrequent(ds, leaf).0
    decreases |idx|
  {
    var t := Build(ds, idx, threshold).value;
    BuildShape(ds, idx, threshold);
    WellShapedClassifies(t, img);
    if !IsLeaf(t) {
      var p := t.pixel;
      SplitShrinks(ds, idx);
      var side := Filter(ds, idx, p, img[p] < 128);
      PredictIsReachedMajority(ds, side, threshold, img);
      forall x | x in Reached(ds, side, threshold, img)
        ensures x in idx
      {
        FilterMembers(ds, idx, p, img[p] < 128, x);
      }
    }
  }

  /**
   * Classifying training item `i` of the subset a tree was built from follows
   * `i` to a non-empty subset that holds it, lies inside the subset and has a
   * ratio above the threshold, and returns that subset's majority label.
   */
  lemma {:induction false} TrainingImageReachesItsLeaf(ds: Dataset, idx: seq<int>, threshold: real, i: int)
    requires Valid(ds) && LabelsInRange(ds) && ValidIndices(ds, idx)
    requires Build(ds, idx, threshold).Some? && i in idx
    ensures Walkable(Build(ds, idx, threshold).value, ds.images[i])
    ensures var leaf := Reached(ds, idx, threshold, ds.images[i]);
            && i in leaf
            && (forall x :: x in leaf ==> x in idx)
            && |leaf| > 0
            && Ratio(ds, leaf) > threshold
            && Predict(Build(ds, idx, threshold).value, ds.images[i]) == MostFrequent(ds, leaf).0
    decreases |idx|
  {
    var img := ds.images[i];
    PredictIsReachedMajority(ds, idx, threshold, img);
    if |idx| != 0 && Ratio(ds, idx) <= threshold && BestSplit(ds, idx) != -1 {
      var p := BestSplit(ds, idx);
      SplitShrinks(ds, idx);
      var side := Filter(ds, idx, p, img[p] < 128);
      FilterMembers(ds, idx, p, img[p] < 128, i);
      BuildShape(ds, idx, threshold);
      TrainingImageReachesItsLeaf(ds, side, threshold, i);
    }
  }
}
