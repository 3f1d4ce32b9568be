/** Label vectors: one integer per point; a negative value (conventionally -1)
    marks noise, a non-negative value is a cluster id. */
module Labels {

  /** The largest label of a non-empty label vector (numpy's `labels.max()`). */
  function MaxLabel(labels: seq<int>): (m: int)
    requires |labels| > 0
    ensures m in labels
    ensures forall x :: x in labels ==> x <= m
  {
    if |labels| == 1 then labels[0]
    else
      assert labels == [labels[0]] + labels[1..];
      var rest := MaxLabel(labels[1..]);
      if labels[0] >= rest then labels[0] else rest
  }

  /** The number of cluster ids a label vector spans: `max(labels) + 1`, the
      length of `range(labels.max() + 1)`. A vector holding only noise spans
      none; so does the empty vector, on which numpy's `max` would fail. */
  function ClusterCount(labels: seq<int>): (n: nat)
    ensures forall x :: x in labels && x >= 0 ==> x < n
    ensures n > 0 ==> n - 1 in labels
  {
    if |labels| == 0 || MaxLabel(labels) < 0 then 0 else MaxLabel(labels) + 1
  }

  /** A noise label added to a vector leaves its cluster count unchanged. */
  lemma ClusterCountIgnoresNoise(labels: seq<int>, x: int)
    requires x < 0
    ensures ClusterCount(labels + [x]) == ClusterCount(labels)
  {
    var n, n' := ClusterCount(labels), ClusterCount(labels + [x]);
    if n' > 0 {
      assert n' - 1 in labels;
    }
    if n > 0 {
      assert n - 1 in labels + [x];
    }
  }
}
