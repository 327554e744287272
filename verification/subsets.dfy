/**
 * Index subsets: the `indices` arrays (with their length M) that name which
 * dataset items take part in one step of the tree construction, with the label
 * counts and the binary cut at pixel intensity 128 that every step works with.
 */
module Subsets {
  import opened Datasets

  /** Every entry of `idx` names an item of `ds`. */
  predicate ValidIndices(ds: Dataset, idx: seq<int>) {
    forall k :: 0 <= k < |idx| ==> 0 <= idx[k] < Size(ds)
  }

  /** The full index range 0, 1, ..., n - 1 in order. */
  function Range(n: nat): (r: seq<int>)
    ensures |r| == n && forall k :: 0 <= k < n ==> r[k] == k
  {
    seq(n, k => k)
  }

  /** Number of entries of `idx` whose item carries label `l`. */
  function CountLabel(ds: Dataset, idx: seq<int>, l: int): (c: nat)
    requires Valid(ds) && ValidIndices(ds, idx)
    ensures c <= |idx|
  {
    if |idx| == 0 then 0
    else CountLabel(ds, idx[..|idx| - 1], l) + (if ds.labels[idx[|idx| - 1]] == l then 1 else 0)
  }

  /** The label histogram of `idx`, one slot per label. */
  function Counts(ds: Dataset, idx: seq<int>): (counts: seq<nat>)
    requires Valid(ds) && ValidIndices(ds, idx)
    ensures |counts| == NumLabels
  {
    seq(NumLabels, l => CountLabel(ds, idx, l))
  }

  /** The image of item `j` falls on the left of the cut at `pixel`. */
  predicate GoesLeft(ds: Dataset, j: int, pixel: int)
    requires Valid(ds) && 0 <= j < Size(ds) && 0 <= pixel < NumPixels
  {
    ds.images[j][pixel] < 128
  }

  /**
   * The entries of `idx` whose image falls on the `left` side of the cut at
   * `pixel` (intensity below 128 when `left`, at least 128 otherwise), in
   * their original order.
   */
  function Filter(ds: Dataset, idx: seq<int>, pixel: int, left: bool): (r: seq<int>)
    requires Valid(ds) && ValidIndices(ds, idx) && 0 <= pixel < NumPixels
    ensures |r| <= |idx| && ValidIndices(ds, r)
  {
    if |idx| == 0 then []
    else
      var init := Filter(ds, idx[..|idx| - 1], pixel, left);
      var j := idx[|idx| - 1];
      if GoesLeft(ds, j, pixel) == left then init + [j] else init
  }

  /** Appending an entry to a subset appends it to the side of the cut its pixel chooses. */
  lemma FilterSnoc(ds: Dataset, idx: seq<int>, x: int, pixel: int, left: bool)
    requires Valid(ds) && ValidIndices(ds, idx) && 0 <= x < Size(ds) && 0 <= pixel < NumPixels
    ensures ValidIndices(ds, idx + [x])
    ensures Filter(ds, idx + [x], pixel, left)
            == if GoesLeft(ds, x, pixel) == left then Filter(ds, idx, pixel, left) + [x]
               else Filter(ds, idx, pixel, left)
  {
    assert (idx + [x])[..|idx|] == idx;
  }

  /** One more entry of a subset's prefix: the filtered prefix grows by it on its own side only. */
  lemma FilterPrefixStep(ds: Dataset, idx: seq<int>, i: int, pixel: int, left: bool)
    requires Valid(ds) && ValidIndices(ds, idx) && 0 <= i < |idx| && 0 <= pixel < NumPixels
    ensures Filter(ds, idx[..i + 1], pixel, left)
            == if GoesLeft(ds, idx[i], pixel) == left then Filter(ds, idx[..i], pixel, left) + [idx[i]]
               else Filter(ds, idx[..i], pixel, left)
  {
    assert idx[..i + 1] == idx[..i] + [idx[i]];
    FilterSnoc(ds, idx[..i], idx[i], pixel, left);
  }

  /** An entry below 128 at the cut extends the left side of the prefix and leaves the right side. */
  lemma FilterPrefixLeft(ds: Dataset, idx: seq<int>, i: int, pixel: int)
    requires Valid(ds) && ValidIndices(ds, idx) && 0 <= i < |idx| && 0 <= pixel < NumPixels
    requires ds.images[idx[i]][pixel] < 128
    ensures Filter(ds, idx[..i + 1], pixel, true) == Filter(ds, idx[..i], pixel, true) + [idx[i]]
    ensures Filter(ds, idx[..i + 1], pixel, false) == Filter(ds, idx[..i], pixel, false)
  {
    FilterPrefixStep(ds, idx, i, pixel, true);
    FilterPrefixStep(ds, idx, i, pixel, false);
  }

  /** An entry at or above 128 at the cut extends the right side of the prefix and leaves the left side. */
  lemma FilterPrefixRight(ds: Dataset, idx: seq<int>, i: int, pixel: int)
    requires Valid(ds) && ValidIndices(ds, idx) && 0 <= i < |idx| && 0 <= pixel < NumPixels
    requires 128 <= ds.images[idx[i]][pixel]
    ensures Filter(ds, idx[..i + 1], pixel, true) == Filter(ds, idx[..i], pixel, true)
    ensures Filter(ds, idx[..i + 1], pixel, false) == Filter(ds, idx[..i], pixel, false) + [idx[i]]
  {
    FilterPrefixStep(ds, idx, i, pixel, true);
    FilterPrefixStep(ds, idx, i, pixel, false);
  }

  /** Appending an entry to a subset adds one to the count of its label only. */
  lemma CountSnoc(ds: Dataset, idx: seq<int>, x: int, l: int)
    requires Valid(ds) && ValidIndices(ds, idx) && 0 <= x < Size(ds)
    ensures ValidIndices(ds, idx + [x])
    ensures CountLabel(ds, idx + [x], l)
            == CountLabel(ds, idx, l) + if ds.labels[x] == l then 1 else 0
  {
    assert (idx + [x])[..|idx|] == idx;
  }

  /** Appending an entry to a subset adds one to the histogram slot of its label. */
  lemma CountsSnoc(ds: Dataset, idx: seq<int>, x: int)
    requires Valid(ds) && LabelsInRange(ds) && ValidIndices(ds, idx) && 0 <= x < Size(ds)
    ensures ValidIndices(ds, idx + [x])
    ensures Counts(ds, idx + [x])
            == Counts(ds, idx)[ds.labels[x] := Counts(ds, idx)[ds.labels[x]] + 1]
  {
    forall l | 0 <= l < NumLabels
      ensures Counts(ds, idx + [x])[l]
              == Counts(ds, idx)[ds.labels[x] := Counts(ds, idx)[ds.labels[x]] + 1][l]
    {
      CountSnoc(ds, idx, x, l);
    }
  }

  /** An item is on a side of the cut exactly when it is in `idx` and its pixel says so. */
  lemma {:induction false} FilterMembers(ds: Dataset, idx: seq<int>, pixel: int, left: bool, x: int)
    requires Valid(ds) && ValidIndices(ds, idx) && 0 <= pixel < NumPixels
    ensures x in Filter(ds, idx, pixel, left) <==>
              x in idx && 0 <= x < Size(ds) && GoesLeft(ds, x, pixel) == left
  {
    if |idx| != 0 {
      var init := idx[..|idx| - 1];
      FilterMembers(ds, init, pixel, left, x);
      assert idx == init + [idx[|idx| - 1]];
    }
  }

  /**
   * The two sides of the cut partition `idx`: their lengths add up to M and
   * together they hold each entry as often as `idx` does.
   */
  lemma {:induction false} FilterPartition(ds: Dataset, idx: seq<int>, pixel: int)
    requires Valid(ds) && ValidIndices(ds, idx) && 0 <= pixel < NumPixels
    ensures |Filter(ds, idx, pixel, true)| + |Filter(ds, idx, pixel, false)| == |idx|
    ensures multiset(Filter(ds, idx, pixel, true)) + multiset(Filter(ds, idx, pixel, false))
            == multiset(idx)
  {
    if |idx| != 0 {
      var init := idx[..|idx| - 1];
      FilterPartition(ds, init, pixel);
      assert idx == init + [idx[|idx| - 1]];
    }
  }

  /** When every entry of `idx` carries label `l`, label `l` counts all of them and no other label any. */
  lemma {:induction false} CountSingleLabel(ds: Dataset, idx: seq<int>, l: int, other: int)
    requires Valid(ds) && ValidIndices(ds, idx)
    requires forall k :: 0 <= k < |idx| ==> ds.labels[idx[k]] == l
    ensures CountLabel(ds, idx, l) == |idx|
    ensures other != l ==> CountLabel(ds, idx, other) == 0
  {
    if |idx| != 0 {
      CountSingleLabel(ds, idx[..|idx| - 1], l, other);
    }
  }

  /** A label that counts every entry of `idx` is the label of every entry. */
  lemma {:induction false} CountAllMeansSingleLabel(ds: Dataset, idx: seq<int>, l: int)
    requires Valid(ds) && ValidIndices(ds, idx)
    requires CountLabel(ds, idx, l) == |idx|
    ensures forall k :: 0 <= k < |idx| ==> ds.labels[idx[k]] == l
  {
    if |idx| != 0 {
      var init := idx[..|idx| - 1];
      CountAllMeansSingleLabel(ds, init, l);
      assert forall k :: 0 <= k < |init| ==> idx[k] == init[k];
    }
  }

  /** The label of an entry of `idx` is counted at least once. */
  lemma {:induction false} CountMember(ds: Dataset, idx: seq<int>, k: int)
    requires Valid(ds) && ValidIndices(ds, idx) && 0 <= k < |idx|
    ensures CountLabel(ds, idx, ds.labels[idx[k]]) >= 1
  {
    if k < |idx| - 1 {
      CountMember(ds, idx[..|idx| - 1], k);
    }
  }
}
