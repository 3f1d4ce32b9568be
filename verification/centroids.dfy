/** Centroid aggregation: one mean vector per cluster id of a label vector,
    the zero vector for an id no point carries, nothing for noise. */
module Centroids {
  import opened Labels

  type Vector = seq<real>

  datatype Error = EmptyLabels | ShapeMismatch

  datatype Result = Ok(table: seq<Vector>) | Err(error: Error)

  /** The zero vector of width `d`. */
  function Zeros(d: nat): Vector {
    seq(d, _ => 0.0)
  }

  /** Column-wise sum of two vectors of one width. */
  function Add(a: Vector, b: Vector): Vector
    requires |a| == |b|
  {
    seq(|a|, j requires 0 <= j < |a| => a[j] + b[j])
  }

  /** Every coordinate divided by `n`. */
  function DivideBy(v: Vector, n: nat): Vector
    requires n > 0
  {
    seq(|v|, j requires 0 <= j < |v| => v[j] / (n as real))
  }

  /** One label per row of the matrix, and every row of width `d`. */
  predicate WellShaped(labels: seq<int>, vectors: seq<Vector>, d: nat) {
    |labels| == |vectors| && forall v :: v in vectors ==> |v| == d
  }

  /** The rows labelled `k`, in order: numpy's `vector_data[cluster_labels == k]`. */
  function Members(labels: seq<int>, vectors: seq<Vector>, k: int): (rows: seq<Vector>)
    requires |labels| == |vectors|
    ensures |rows| <= |labels|
    ensures forall r :: r in rows ==> r in vectors
    decreases |labels|
  {
    if |labels| == 0 then []
    else
      var n := |labels| - 1;
      assert forall r :: r in vectors[..n] ==> r in vectors;
      Members(labels[..n], vectors[..n], k) + (if labels[n] == k then [vectors[n]] else [])
  }

  /** The column-wise sum of rows of width `d`. */
  function VecSum(rows: seq<Vector>, d: nat): (s: Vector)
    requires forall r :: r in rows ==> |r| == d
    ensures |s| == d
    decreases |rows|
  {
    if |rows| == 0 then Zeros(d)
    else
      var n := |rows| - 1;
      assert forall r :: r in rows[..n] ==> r in rows;
      Add(VecSum(rows[..n], d), rows[n])
  }

  /** The column-wise mean of a non-empty set of rows: numpy's `mean(axis=0)`. */
  function Mean(rows: seq<Vector>, d: nat): (m: Vector)
    requires |rows| > 0
    requires forall r :: r in rows ==> |r| == d
    ensures |m| == d
    ensures forall j :: 0 <= j < d ==> m[j] * (|rows| as real) == VecSum(rows, d)[j]
  {
    DivideBy(VecSum(rows, d), |rows|)
  }

  /** The reference centroid table: row `k`, for every `k` in `0..max(labels)`,
      is the mean of the rows labelled `k`, or the zero vector if there are none. */
  function CentroidTable(labels: seq<int>, vectors: seq<Vector>, d: nat): (table: seq<Vector>)
    requires WellShaped(labels, vectors, d)
    ensures |table| == ClusterCount(labels)
    ensures forall k :: 0 <= k < |table| ==> |table[k]| == d
  {
    seq(ClusterCount(labels), k requires 0 <= k < ClusterCount(labels) =>
      var rows := Members(labels, vectors, k);
      if |rows| > 0 then Mean(rows, d) else Zeros(d))
  }

  /** `centroids_from_labels`: a single grouped pass over the points
      accumulates per-cluster sums and counts in two arrays indexed by
      cluster id, skipping noise; then each sum is divided by its count. */
  method Aggregate(labels: seq<int>, vectors: seq<Vector>, d: nat) returns (table: seq<Vector>)
    requires WellShaped(labels, vectors, d)
    ensures table == CentroidTable(labels, vectors, d)
  {
    var m := ClusterCount(labels);
    var sums := new Vector[m](_ => Zeros(d));
    var counts := new nat[m](_ => 0);
    for p := 0 to |labels|
      invariant counts[..] == CountsUpTo(labels, p, m)
      invariant sums[..] == SumsUpTo(labels, vectors, d, p, m)
    {
      var k := labels[p];
      if 0 <= k {
        assert k in labels && vectors[p] in vectors;
        counts[k], sums[k] := counts[k] + 1, Add(sums[k], vectors[p]);
      }
    }
    AccumulatedTable(labels, vectors, d);
    table := MeansFromSums(sums[..], counts[..], d);
  }

  /** Each sum divided by its count; a slot that counted nothing gives the zero vector. */
  function MeansFromSums(sums: seq<Vector>, counts: seq<nat>, d: nat): seq<Vector>
    requires |sums| == |counts|
  {
    seq(|sums|, k requires 0 <= k < |sums| =>
      if counts[k] > 0 then DivideBy(sums[k], counts[k]) else Zeros(d))
  }

  /** After every point, dividing the sums by the counts gives the reference table. */
  lemma AccumulatedTable(labels: seq<int>, vectors: seq<Vector>, d: nat)
    requires WellShaped(labels, vectors, d)
    ensures MeansFromSums(SumsUpTo(labels, vectors, d, |labels|, ClusterCount(labels)),
                   CountsUpTo(labels, |labels|, ClusterCount(labels)), d)
         == CentroidTable(labels, vectors, d)
  {
    var m := ClusterCount(labels);
    assert labels[..|labels|] == labels;
    assert vectors[..|vectors|] == vectors;
    forall k | 0 <= k < m
      ensures CountsUpTo(labels, |labels|, m)[k] == |Members(labels, vectors, k)|
      ensures SumsUpTo(labels, vectors, d, |labels|, m)[k] == VecSum(Members(labels, vectors, k), d)
    {
      AccumulatedCount(labels, vectors, |labels|, m, k);
      AccumulatedSum(labels, vectors, d, |labels|, m, k);
    }
  }

  /** The count array after the first `p` points. */
  ghost function CountsUpTo(labels: seq<int>, p: nat, m: nat): (counts: seq<nat>)
    requires p <= |labels|
    ensures |counts| == m
  {
    if p == 0 then seq(m, _ => 0)
    else
      var counts := CountsUpTo(labels, p - 1, m);
      var k := labels[p - 1];
      if 0 <= k < m then counts[k := counts[k] + 1] else counts
  }

  /** The sum array after the first `p` points. */
  ghost function SumsUpTo(labels: seq<int>, vectors: seq<Vector>, d: nat, p: nat, m: nat): (sums: seq<Vector>)
    requires WellShaped(labels, vectors, d) && p <= |labels|
    ensures |sums| == m
    ensures forall k :: 0 <= k < m ==> |sums[k]| == d
  {
    if p == 0 then seq(m, _ => Zeros(d))
    else
      var sums := SumsUpTo(labels, vectors, d, p - 1, m);
      var k := labels[p - 1];
      assert vectors[p - 1] in vectors;
      if 0 <= k < m then sums[k := Add(sums[k], vectors[p - 1])] else sums
  }

  /** Slot `k` of the count array after `p` points counts the first `p`
      points labelled `k`. */
  lemma {:induction false} AccumulatedCount(labels: seq<int>, vectors: seq<Vector>, p: nat, m: nat, k: int)
    requires |labels| == |vectors| && p <= |labels| && 0 <= k < m
    ensures CountsUpTo(labels, p, m)[k] == |Members(labels[..p], vectors[..p], k)|
  {
    if p > 0 {
      AccumulatedCount(labels, vectors, p - 1, m, k);
      assert labels[..p] == labels[..p - 1] + [labels[p - 1]];
      assert vectors[..p] == vectors[..p - 1] + [vectors[p - 1]];
      MembersSnoc(labels[..p - 1], vectors[..p - 1], labels[p - 1], vectors[p - 1], k);
    }
  }

  /** Slot `k` of the sum array after `p` points sums the first `p` points
      labelled `k`. */
  lemma {:induction false} AccumulatedSum(labels: seq<int>, vectors: seq<Vector>, d: nat, p: nat, m: nat, k: int)
    requires WellShaped(labels, vectors, d) && p <= |labels| && 0 <= k < m
    ensures forall r :: r in Members(labels[..p], vectors[..p], k) ==> |r| == d
    ensures SumsUpTo(labels, vectors, d, p, m)[k] == VecSum(Members(labels[..p], vectors[..p], k), d)
  {
    assert forall r :: r in vectors[..p] ==> r in vectors;
    if p > 0 {
      AccumulatedSum(labels, vectors, d, p - 1, m, k);
      assert labels[..p] == labels[..p - 1] + [labels[p - 1]];
      assert vectors[..p] == vectors[..p - 1] + [vectors[p - 1]];
      MembersSnoc(labels[..p - 1], vectors[..p - 1], labels[p - 1], vectors[p - 1], k);
      var before := Members(labels[..p - 1], vectors[..p - 1], k);
      var v := vectors[p - 1];
      assert v in vectors;
      var prev := SumsUpTo(labels, vectors, d, p - 1, m);
      assert prev[k] == VecSum(before, d);
      if labels[p - 1] == k {
        VecSumSnoc(before, v, d);
        assert Members(labels[..p], vectors[..p], k) == before + [v];
        assert SumsUpTo(labels, vectors, d, p, m)[k] == Add(prev[k], v);
      } else {
        assert Members(labels[..p], vectors[..p], k) == before;
        assert SumsUpTo(labels, vectors, d, p, m)[k] == prev[k];
      }
    }
  }

  /** One more point extends the member list of its own cluster only. */
  lemma MembersSnoc(labels: seq<int>, vectors: seq<Vector>, l: int, v: Vector, k: int)
    requires |labels| == |vectors|
    ensures Members(labels + [l], vectors + [v], k)
         == Members(labels, vectors, k) + (if l == k then [v] else [])
  {
    assert (labels + [l])[..|labels|] == labels;
    assert (vectors + [v])[..|vectors|] == vectors;
  }

  /** Appending a row adds it to the sum. */
  lemma VecSumSnoc(rows: seq<Vector>, x: Vector, d: nat)
    requires forall r :: r in rows ==> |r| == d
    requires |x| == d
    ensures VecSum(rows + [x], d) == Add(VecSum(rows, d), x)
  {
    assert (rows + [x])[..|rows|] == rows;
  }

  /** `centroids_from_labels`: an empty label vector has no maximum, and a
      label vector and matrix that disagree in shape are rejected. */
  method CentroidsFromLabels(labels: seq<int>, vectors: seq<Vector>) returns (r: Result)
    ensures |labels| == 0 ==> r == Err(EmptyLabels)
    ensures |labels| > 0 && |vectors| != |labels| ==> r == Err(ShapeMismatch)
    ensures |labels| > 0 && |vectors| == |labels| && !WellShaped(labels, vectors, |vectors[0]|) ==>
              r == Err(ShapeMismatch)
    ensures |labels| > 0 && |vectors| == |labels| && WellShaped(labels, vectors, |vectors[0]|) ==>
              r == Ok(CentroidTable(labels, vectors, |vectors[0]|))
  {
    if |labels| == 0 {
      return Err(EmptyLabels);
    }
    if |vectors| != |labels| || !WellShaped(labels, vectors, |vectors[0]|) {
      return Err(ShapeMismatch);
    }
    var table := Aggregate(labels, vectors, |vectors[0]|);
    r := Ok(table);
  }

  /** `np.sum(cluster_labels == k)` is the number of rows averaged for cluster `k`. */
  lemma {:induction false} MembersCount(labels: seq<int>, vectors: seq<Vector>, k: int)
    requires |labels| == |vectors|
    ensures |Members(labels, vectors, k)| == multiset(labels)[k]
    decreases |labels|
  {
    if |labels| > 0 {
      var n := |labels| - 1;
      MembersCount(labels[..n], vectors[..n], k);
      assert labels == labels[..n] + [labels[n]];
    }
  }

  /** A row is averaged into cluster `k` exactly when some point labelled `k` carries it. */
  lemma {:induction false} MembersAreLabelled(labels: seq<int>, vectors: seq<Vector>, k: int, v: Vector)
    requires |labels| == |vectors|
    ensures v in Members(labels, vectors, k) <==>
              exists p :: 0 <= p < |labels| && labels[p] == k && vectors[p] == v
    decreases |labels|
  {
    if |labels| > 0 {
      var n := |labels| - 1;
      MembersAreLabelled(labels[..n], vectors[..n], k, v);
      if v in Members(labels, vectors, k) && v !in Members(labels[..n], vectors[..n], k) {
        assert labels[n] == k && vectors[n] == v;
      }
      if exists p :: 0 <= p < |labels| && labels[p] == k && vectors[p] == v {
        var p :| 0 <= p < |labels| && labels[p] == k && vectors[p] == v;
        if p < n {
          assert labels[..n][p] == k && vectors[..n][p] == v;
        }
      }
    }
  }

  /** Row `k` depends only on the rows labelled `k`. */
  lemma {:induction false} MembersIgnoreOtherRows(labels: seq<int>, v1: seq<Vector>, v2: seq<Vector>, k: int)
    requires |labels| == |v1| == |v2|
    requires forall p :: 0 <= p < |labels| && labels[p] == k ==> v1[p] == v2[p]
    ensures Members(labels, v1, k) == Members(labels, v2, k)
    decreases |labels|
  {
    if |labels| > 0 {
      var n := |labels| - 1;
      MembersIgnoreOtherRows(labels[..n], v1[..n], v2[..n], k);
    }
  }

  /** A cluster id inside `0..max(labels)` that no point carries yields the
      zero vector rather than a missing row, so row index equals cluster id. */
  lemma GapRowIsZero(labels: seq<int>, vectors: seq<Vector>, d: nat, k: int)
    requires WellShaped(labels, vectors, d)
    requires 0 <= k < ClusterCount(labels)
    requires k !in labels
    ensures CentroidTable(labels, vectors, d)[k] == Zeros(d)
  {
    MembersCount(labels, vectors, k);
    assert multiset(labels)[k] == 0;
  }

  /** Noise points contribute to no row: the vectors of points with a negative
      label can be anything. */
  lemma NoiseVectorsIgnored(labels: seq<int>, v1: seq<Vector>, v2: seq<Vector>, d: nat)
    requires WellShaped(labels, v1, d) && WellShaped(labels, v2, d)
    requires forall p :: 0 <= p < |labels| && labels[p] >= 0 ==> v1[p] == v2[p]
    ensures CentroidTable(labels, v1, d) == CentroidTable(labels, v2, d)
  {
    forall k | 0 <= k < ClusterCount(labels)
      ensures CentroidTable(labels, v1, d)[k] == CentroidTable(labels, v2, d)[k]
    {
      MembersIgnoreOtherRows(labels, v1, v2, k);
    }
  }

  /** Adding one more noise point leaves the table unchanged, its row count included. */
  lemma AddingNoisePointChangesNothing(labels: seq<int>, vectors: seq<Vector>, d: nat, x: Vector)
    requires WellShaped(labels, vectors, d)
    requires |x| == d
    ensures WellShaped(labels + [-1], vectors + [x], d)
    ensures CentroidTable(labels + [-1], vectors + [x], d) == CentroidTable(labels, vectors, d)
  {
    var labels', vectors' := labels + [-1], vectors + [x];
    assert WellShaped(labels', vectors', d) by {
      assert forall v :: v in vectors' ==> v in vectors || v == x;
    }
    ClusterCountIgnoresNoise(labels, -1);
    forall k | 0 <= k < ClusterCount(labels)
      ensures CentroidTable(labels', vectors', d)[k] == CentroidTable(labels, vectors, d)[k]
    {
      MembersSnoc(labels, vectors, -1, x, k);
      assert Members(labels', vectors', k) == Members(labels, vectors, k);
    }
  }

  /** Row `k` of the table, as the reference comprehension states it. */
  lemma CentroidRow(labels: seq<int>, vectors: seq<Vector>, d: nat, k: nat)
    requires WellShaped(labels, vectors, d)
    requires k < ClusterCount(labels)
    ensures forall r :: r in Members(labels, vectors, k) ==> |r| == d
    ensures CentroidTable(labels, vectors, d)[k]
         == if |Members(labels, vectors, k)| > 0 then Mean(Members(labels, vectors, k), d) else Zeros(d)
  {
  }

  /** `n` copies of `x` added up; the product `n * x` without multiplication. */
  function Times(n: nat, x: real): real {
    if n == 0 then 0.0 else Times(n - 1, x) + x
  }

  /** Repeated addition is multiplication. */
  lemma {:induction false} TimesIsProduct(n: nat, x: real)
    ensures Times(n, x) == (n as real) * x
  {
    if n > 0 {
      TimesIsProduct(n - 1, x);
    }
  }

  /** A sum of `n` coordinates each in `[lo, hi]` lies in `[n * lo, n * hi]`. */
  lemma {:induction false} VecSumBounds(rows: seq<Vector>, d: nat, j: nat, lo: real, hi: real)
    requires forall r :: r in rows ==> |r| == d
    requires j < d
    requires forall r :: r in rows ==> lo <= r[j] <= hi
    ensures Times(|rows|, lo) <= VecSum(rows, d)[j] <= Times(|rows|, hi)
    decreases |rows|
  {
    if |rows| > 0 {
      var n := |rows| - 1;
      assert rows == rows[..n] + [rows[n]];
      assert forall r :: r in rows[..n] ==> r in rows;
      assert rows[n] in rows;
      VecSumSnoc(rows[..n], rows[n], d);
      VecSumBounds(rows[..n], d, j, lo, hi);
    }
  }

  /** Dividing a sum in `[n * lo, n * hi]` by `n` gives a value in `[lo, hi]`. */
  lemma QuotientBounds(s: real, n: nat, lo: real, hi: real)
    requires n > 0
    requires Times(n, lo) <= s <= Times(n, hi)
    ensures lo <= s / (n as real) <= hi
  {
    TimesIsProduct(n, lo);
    TimesIsProduct(n, hi);
    assert s / (n as real) * (n as real) == s;
  }

  /** A centroid lies within the range its members span in every coordinate. */
  lemma CentroidWithinMemberRange(labels: seq<int>, vectors: seq<Vector>, d: nat, k: nat, j: nat, lo: real, hi: real)
    requires WellShaped(labels, vectors, d)
    requires k in labels
    requires j < d
    requires forall p :: 0 <= p < |labels| && labels[p] == k ==> lo <= vectors[p][j] <= hi
    ensures k < ClusterCount(labels)
    ensures lo <= CentroidTable(labels, vectors, d)[k][j] <= hi
  {
    var rows := Members(labels, vectors, k);
    CentroidRow(labels, vectors, d, k);
    var p :| 0 <= p < |labels| && labels[p] == k;
    MembersAreLabelled(labels, vectors, k, vectors[p]);
    forall r | r in rows
      ensures lo <= r[j] <= hi
    {
      MembersAreLabelled(labels, vectors, k, r);
    }
    VecSumBounds(rows, d, j, lo, hi);
    QuotientBounds(VecSum(rows, d)[j], |rows|, lo, hi);
  }

  /** The sum of `n` copies of `x` is `n * x`, coordinate by coordinate. */
  lemma {:induction false} VecSumOfCopies(rows: seq<Vector>, d: nat, x: Vector, j: nat)
    requires |x| == d && j < d
    requires forall r :: r in rows ==> r == x
    ensures VecSum(rows, d)[j] == Times(|rows|, x[j])
    decreases |rows|
  {
    if |rows| > 0 {
      var n := |rows| - 1;
      assert forall r :: r in rows[..n] ==> r in rows;
      assert rows == rows[..n] + [rows[n]];
      assert rows[n] in rows;
      VecSumSnoc(rows[..n], rows[n], d);
      VecSumOfCopies(rows[..n], d, x, j);
    }
  }

  /** When every point of cluster `k` carries the same vector, the centroid is that vector. */
  lemma CentroidOfIdenticalMembers(labels: seq<int>, vectors: seq<Vector>, d: nat, k: nat, x: Vector)
    requires WellShaped(labels, vectors, d)
    requires k in labels
    requires |x| == d
    requires forall p :: 0 <= p < |labels| && labels[p] == k ==> vectors[p] == x
    ensures k < ClusterCount(labels)
    ensures CentroidTable(labels, vectors, d)[k] == x
  {
    var rows := Members(labels, vectors, k);
    CentroidRow(labels, vectors, d, k);
    var p :| 0 <= p < |labels| && labels[p] == k;
    MembersAreLabelled(labels, vectors, k, vectors[p]);
    forall r | r in rows
      ensures r == x
    {
      MembersAreLabelled(labels, vectors, k, r);
    }
    forall j | 0 <= j < d
      ensures Mean(rows, d)[j] == x[j]
    {
      VecSumOfCopies(rows, d, x, j);
      AverageOfCopies(|rows|, x[j]);
    }
    assert Mean(rows, d) == x;
  }

  /** The mean of `n` copies of a value is that value. */
  lemma AverageOfCopies(n: nat, x: real)
    requires n > 0
    ensures Times(n, x) / (n as real) == x
  {
    TimesIsProduct(n, x);
  }
}
