# Decision-tree digit classifier, modelled in Dafny

This project models `dectree.c`, a decision-tree classifier for 28 by 28
handwritten-digit images (784 pixels, each read as "dark" when its intensity
is below 128 and "bright" otherwise, with labels 0..9). It covers:

- **Loading.** `load_dataset` decodes a binary file: a 4-byte little-endian
  count N, then N records, each a label byte followed by 784 pixel bytes.
- **Building.** `build_dec_tree` and `build_subtree` grow the tree over index
  subsets of the training set. At each subset they do three things:
  - `get_most_frequent` finds the majority label. Ties go to the smallest
    label.
  - If the majority label's share of the subset is at most the threshold
    ratio, `find_best_split` chooses the pixel whose cut has the lowest
    `gini_impurity`. Cuts with an undefined (NaN) impurity are skipped, ties
    go to the smallest pixel, and it returns -1 when no cut is defined.
  - The subset is partitioned by that cut, and each non-empty side is built
    recursively.
- **Classifying.** `dec_tree_classify` walks from the root to a leaf for one
  image.

Modules, one per component: `Wrappers` (Option), `Datasets` (the file layout,
the loader and its inverse), `Subsets` (index subsets: label counts and the
order-preserving cut), `Impurities`, `Majority`, `Split`, `DecisionTree` and
`Classifier`.

How the C code is represented:

- **The C loops** become methods with loop invariants. Each is proved equal to
  a specification function:
  - `Impurity`, `MostFrequent`, `BestSplit` and `Build` for the build steps;
  - `Parse` for the loader;
  - `Predict` for the classifier.

  The properties are proved about those functions.
- **The tree** is an inductive datatype. `Nil` is the null pointer.
- **Index arrays** (`indices`, `sub_left_indices`, `sub_right_indices`) stay
  `array<int>` with their length `M`.
- **Local histograms.** The local 10-slot histograms (`int a_freq[10] = {0}`
  and the like) are local arrays with value semantics. They are modelled as
  local `seq` variables.
- **Impurities** are exact reals. The NaN that `gini_impurity` returns when a
  side of the cut is empty is `None`.
- **Ratio of an empty subset.** The ratio `frequency / M` of an empty subset is
  0 / 0, a NaN. A NaN is never `<= THRESHOLD_RATIO`, so an empty subset becomes
  a leaf labelled 0.
- **Pixel -1.** When no cut of a subset is defined, `build_subtree` indexes the
  images at pixel -1. `Build` returns `None` exactly there, and the methods
  require the build to be defined. `BuildDefined` gives a sufficient condition.
- **Threshold.** `THRESHOLD_RATIO` is the parameter `threshold: real`.

Two consequences of the code that the model states as lemmas:

- **Threshold of 1.** `build_subtree` computes `ratio = frequency / M`
  (dectree.c:180) and splits whenever `ratio <= THRESHOLD_RATIO`
  (dectree.c:187). A subset whose items all carry one label has ratio 1.0, so
  it is split when the threshold is 1.0 or more.
  - `PureSubsetIsLeaf` proves that such a subset is a leaf for thresholds
    below 1.
  - `ThresholdOneNeverBuilds` proves that with a threshold of 1 or more, every
    non-empty subset ends in a subset with no defined cut (the pixel -1 read).
- **Empty dataset.** With N = 0, `frequency / M` is 0 / 0, a NaN
  (dectree.c:180). The test at dectree.c:187 fails, the majority label 0 is
  kept (dectree.c:204), and the tree is a single leaf labelled 0.

## Model

| member | source | states |
|---|---|---|
| Datasets.Parse | dectree.c:39-50 | the decoded dataset pairs every label with a 784-pixel image and holds as many items as the little-endian count announces |
| Datasets.LoadDataset | dectree.c:31-53 | reading the count and then the records one after another yields, for item i, the label byte at offset 4 + 785 i and the 784 bytes after it; the result equals `Parse` of the file |
| Datasets.ParseEncode | dectree.c:39-50 | decoding the file written for any dataset (fewer than 2^31 items, 784 pixels per image) gives that dataset back |
| Datasets.EncodeParse | dectree.c:39-50 | re-encoding the decoded dataset gives back exactly the bytes the loader reads: the count and the N records, nothing after them |
| Datasets.CountFieldOfCountBytes | dectree.c:39-41 | the 4-byte little-endian count written for n reads back as n |
| Datasets.CountBytesOfCountField | dectree.c:39-41 | the count read from the first 4 bytes, written back, gives those 4 bytes |
| Datasets.EncodeRecordsAt | dectree.c:44-50 | record k starts 785 k bytes into the records: its label byte there, its 784 pixels after it |
| Subsets.CountLabel | dectree.c:111-115 | the count of a label in a subset is at most the subset size |
| Subsets.Filter | dectree.c:191-202 | one side of the cut is no longer than the subset and names only dataset items |
| Subsets.FilterMembers | dectree.c:191-202 | an index is on one side of the cut exactly when it is in the subset and its image falls on that side |
| Subsets.FilterPartition | dectree.c:191-202 | the two sides of a cut together hold the subset: their sizes add up to M and their multisets to the subset's |
| Subsets.CountsSnoc | dectree.c:111-115 | adding one item to a subset adds one to its label's slot of the histogram and leaves the other slots |
| Subsets.CountSingleLabel | dectree.c:111-115 | when every item of a subset carries label l, l is counted M times and every other label 0 times |
| Subsets.CountAllMeansSingleLabel | dectree.c:111-115 | a label counted M times in a subset of size M is the label of every item |
| Subsets.CountMember | dectree.c:111-115 | the label of any member of the subset is counted at least once |
| Impurities.SideCountsIsCounts | dectree.c:73-84 | tallying one side of the cut in a single pass over the subset gives the label histogram of that side |
| Impurities.TallySides | dectree.c:70-84 | the first loop of `gini_impurity` leaves in `aFreq`/`bFreq` the label histograms of the dark and bright sides and in `aCount`/`bCount` their sizes |
| Impurities.GiniSums | dectree.c:86-92 | the second loop sums p (1 - p) over the 10 label shares of each side |
| Impurities.GiniImpurity | dectree.c:69-96 | the result is the impurity of the cut: None (NaN) when a side is empty, otherwise (giniA * aCount + giniB * bCount) / M |
| Impurities.ImpurityDefinedIff | dectree.c:69-96 | the impurity is defined exactly when some item of the subset is dark at the pixel and some item is bright |
| Impurities.GiniTermRange | dectree.c:87-91 | for a share between 0 and 1, p (1 - p) is non-negative and zero only at shares 0 and 1 |
| Impurities.GiniSumNonNegative | dectree.c:87-91 | a histogram whose slots lie between 0 and the group size has a non-negative Gini sum |
| Impurities.GiniSumZeroIff | dectree.c:87-91 | the Gini sum is zero exactly when every slot is empty or holds the whole group |
| Impurities.GiniZeroIffSingleLabel | dectree.c:86-92 | the Gini impurity of a non-empty group is non-negative and zero exactly when all its items carry one label |
| Impurities.WeightedZeroIff | dectree.c:95 | the size-weighted average of two non-negative impurities of non-empty groups is non-negative and zero exactly when both are zero |
| Impurities.ImpurityZeroIff | dectree.c:69-96 | a defined impurity is non-negative, and zero exactly when both sides of the cut carry a single label each |
| Majority.MaxUpToIsFirstMax | dectree.c:117-124 | the scan of the histogram returns a label whose frequency is its count, no smaller than any other count, and strictly larger than the count of every smaller label |
| Majority.MostFrequentIsSmallestMax | dectree.c:108-127 | the vote is a label in 0..9 whose frequency is its count in the subset, no label is counted more often, and every smaller label is counted strictly less often (ties go to the smallest label) |
| Majority.MostFrequentOccurs | dectree.c:108-127 | in a non-empty subset the majority label occurs at least once |
| Majority.MostFrequentOfSingleLabel | dectree.c:108-127 | when every item carries label l, the vote is l with frequency M |
| Majority.GetMostFrequent | dectree.c:108-127 | the method returns the smallest label of maximal count and that count, the vote of `MostFrequent` |
| Split.FirstMinUpTo | dectree.c:141-150 | the running minimum is -1 or an index below n whose entry is defined |
| Split.FirstMinUpToIsFirstMin | dectree.c:141-150 | the running minimum is -1 exactly when no entry is defined; otherwise its entry is at most every defined entry and strictly below every defined entry before it |
| Split.BestSplit | dectree.c:140-152 | the best split is -1 or a pixel in 0..783 whose impurity is defined |
| Split.BestSplitIsFirstMin | dectree.c:140-152 | the split is -1 exactly when no pixel has a defined impurity; otherwise its impurity is defined, minimal among the defined ones, and strictly below that of every smaller pixel |
| Split.SplitShrinks | dectree.c:187-202 | when a split exists, both sides of its cut are non-empty and strictly smaller than the subset, and their sizes add up to M |
| Split.FindBestSplit | dectree.c:140-152 | the method returns `BestSplit` of the subset |
| DecisionTree.Share | dectree.c:180 | `frequency / M` is at most 1 when frequency is at most M, and exactly 1 when they are equal |
| DecisionTree.Build | dectree.c:174-232 | a defined build is a node, never the null pointer |
| DecisionTree.BuildShape | dectree.c:174-232 | a built subtree is well shaped (leaves: pixel -1 and a label in 0..9; internal nodes: classification -1, a pixel in 0..783, two non-null children); it is a leaf exactly when the subset is empty or its ratio exceeds the threshold, and then carries the majority label; otherwise it splits on the best pixel and its children are the builds of the two sides |
| DecisionTree.PureSubsetIsLeaf | dectree.c:178-187 | with a threshold below 1, a non-empty subset whose items all carry label l becomes the leaf l |
| DecisionTree.ThresholdOneNeverBuilds | dectree.c:180-191 | with a threshold of 1 or more, every non-empty subset is split until a subset with no defined cut is reached, so the build is undefined (pixel -1 would be read) |
| DecisionTree.MixedSubsetHasSplit | dectree.c:140-152 | in a dataset where items that no cut tells apart share a label, a non-empty subset whose ratio is below 1 has a defined split |
| DecisionTree.BuildDefined | dectree.c:174-232 | under that condition and a threshold below 1, the build is defined on every subset |
| DecisionTree.BuildTreeDefined | dectree.c:239-251 | under the same condition, the whole tree is defined |
| DecisionTree.Partition | dectree.c:189-202 | the partition loop copies into the left array exactly the dark side of the cut and into the right array exactly the bright side, each in subset order, and the two counts add up to M |
| DecisionTree.BuildSubtree | dectree.c:174-232 | the method returns the tree `Build` gives for the subset |
| DecisionTree.BuildDecTree | dectree.c:239-251 | the method fills `indices` with 0 .. N - 1 and returns the tree `BuildTree` gives |
| Classifier.DecTreeClassify | dectree.c:256-268 | the walk returns the classification of the leaf that `Predict` reaches |
| Classifier.WellShapedClassifies | dectree.c:256-268 | on a well-shaped tree the walk for any 784-pixel image never follows a null child or reads outside the image, and returns a label in 0..9 |
| Classifier.BuiltTreeClassifies | dectree.c:239-268 | a tree built by `build_dec_tree` classifies every 784-pixel image into a label in 0..9 |
| Classifier.PredictIsReachedMajority | dectree.c:174-268 | classifying any 784-pixel image returns the majority label of the subset `Reached` follows it to (at each split, the side of the best pixel's cut the image falls on); that subset lies inside the training subset, is empty only when the training subset is, has a ratio above the threshold when non-empty, and is exactly the subset on which the builder made a leaf with that label |
| Classifier.TrainingImageReachesItsLeaf | dectree.c:174-268 | classifying training item i follows it to a subset `Reached` that holds i, lies inside the training subset and has a ratio above the threshold, and returns that subset's majority label |

## Left out

- File handling: `fopen`, the "could not open file" message and `exit(1)`, and `fclose`. The loader takes the file content as a byte sequence.
- Datasets.LoadDataset: requires a well-formed file. The source never checks what `fread` returns. On a short file it would leave labels and pixels unset, and a count with its top bit set (a negative C `int`) is not modelled. The count is read little-endian, as on the machines the program targets.
- Impurities.TallySides: requires every label of the dataset to lie in 0..9 (`LabelsInRange`). The loader accepts any label byte, but for a label of 10 or more the source writes past its 10-slot histograms `a_freq` and `b_freq` (dectree.c:78, 81), which is undefined behaviour; the model does not cover such a dataset. The same holds for the members below and for the lemmas about them.
- Impurities.GiniImpurity: requires `LabelsInRange`, because it calls `TallySides`.
- Majority.GetMostFrequent: requires `LabelsInRange`; for a larger label the source writes past `all_freq` (dectree.c:114).
- Split.FindBestSplit: requires `LabelsInRange`, because it calls `GiniImpurity`.
- DecisionTree.Build: requires `LabelsInRange`, because it is defined through `MostFrequent` and `BestSplit`.
- DecisionTree.BuildSubtree: requires `LabelsInRange`, because it calls `GetMostFrequent` and `FindBestSplit`.
- DecisionTree.BuildDecTree: requires `LabelsInRange`, because it calls `BuildSubtree`.
- `free_dec_tree`, `free_dataset`, `malloc` and `free`: memory release and allocation failure are not modelled. The tree is a value, so freeing it has no counterpart.
- The `sx` and `sy` fields of each image are always `WIDTH` and are never read by the core; they are not modelled.
- `THRESHOLD_RATIO`, `NUM_PIXELS` and `WIDTH` come from `dectree.h`, which is not part of this model. The threshold is a parameter; 784 pixels and 10 labels are constants.
- Floating point: impurities, Gini terms and the ratio are exact reals, not IEEE doubles, so rounding and the order of additions have no effect. NaN is `None`, and the initial `INFINITY` of `find_best_split` is "no minimum yet".
- Impurities.GiniImpurity: returns `None` as soon as the tallies show an empty side, instead of computing the NaN through the second loop. The result is the same. Its two loops are the methods `TallySides` and `GiniSums`, which it calls in the source's order.
- DecisionTree.BuildSubtree: requires the build of its subset to be defined. Where the source would read an image at pixel -1 (undefined behaviour), the model has no result.
- DecisionTree.Partition: the partition loop of `build_subtree` is its own method, called where the loop stands in the source.
- Classifier.DecTreeClassify: requires a walk that never follows a null child. The source dereferences the null pointer there.
