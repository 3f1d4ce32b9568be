/** The cluster containment tree over a stack of label vectors, layer 0 the
    finest. Every cluster is attached to a cluster of a strictly coarser layer
    that holds all of its points, or else to an artificial root whose layer
    index is the number of layers. */
module ClusterTree {
  import opened Labels
  import opened TreeGrouping

  datatype Option<T> = None | Some(value: T)

  /** The artificial root: a layer index no real layer has. */
  function Root(layers: seq<seq<int>>): ClusterRef {
    ClusterRef(|layers|, 0)
  }

  /** `r` names a cluster id in `0..max(labels)` of an existing layer. */
  predicate IsCluster(layers: seq<seq<int>>, r: ClusterRef) {
    0 <= r.layer < |layers| && 0 <= r.cluster < ClusterCount(layers[r.layer])
  }

  /** Every point labelled `child.cluster` in the child's layer is labelled
      `parent.cluster` in the parent's layer. */
  predicate Contained(layers: seq<seq<int>>, child: ClusterRef, parent: ClusterRef)
    requires 0 <= child.layer < |layers| && 0 <= parent.layer < |layers|
  {
    forall x :: 0 <= x < |layers[child.layer]| && layers[child.layer][x] == child.cluster ==>
      x < |layers[parent.layer]| && layers[parent.layer][x] == parent.cluster
  }

  /** No cluster of layer `p` contains `child`. */
  predicate NoContainerIn(layers: seq<seq<int>>, child: ClusterRef, p: int)
    requires 0 <= child.layer < |layers| && 0 <= p < |layers|
  {
    forall j :: 0 <= j < ClusterCount(layers[p]) ==> !Contained(layers, child, ClusterRef(p, j))
  }

  /** `r` is listed as a child somewhere in `tree`. */
  ghost predicate InTree(tree: Tree, r: ClusterRef) {
    exists p :: p in tree && r in tree[p]
  }

  /** What the tree tests demand of a tree over `layers`:
      - every parent's layer is strictly above its child's, and unless the
        parent is the root, the child's points all carry the parent's label;
      - no child is listed twice;
      - every cluster of every layer is listed as a child. */
  ghost predicate ValidTree(layers: seq<seq<int>>, tree: Tree) {
    && (forall p, c :: p in tree && c in tree[p] ==>
          0 <= c.layer < p.layer && (p.layer < |layers| ==> Contained(layers, c, p)))
    && NoDuplicateChildren(tree)
    && (forall r :: IsCluster(layers, r) ==> InTree(tree, r))
  }

  /** The keys of the tree are exactly the clusters that are the nearest
      container of some cluster (the root included). */
  ghost predicate KeysAreContainers(layers: seq<seq<int>>, tree: Tree) {
    forall r :: r in tree <==> exists c :: IsCluster(layers, c) && NearestContainer(layers, c) == r
  }

  /** `r`, a cluster above layer 0, holds every point of the cluster that
      point `x` belongs to in the layer just below; that cluster is not
      empty, since `x` is in it. */
  predicate HoldsFinerCluster(layers: seq<seq<int>>, r: ClusterRef, x: int) {
    && IsCluster(layers, r) && r.layer > 0
    && 0 <= x < |layers[r.layer - 1]| && layers[r.layer - 1][x] >= 0
    && Contained(layers, ClusterRef(r.layer - 1, layers[r.layer - 1][x]), r)
  }

  /** The smallest id `j' >= j` of a cluster in layer `p` that contains `child`. */
  function FirstContainerFrom(layers: seq<seq<int>>, child: ClusterRef, p: int, j: nat): (r: Option<int>)
    requires 0 <= child.layer < p < |layers|
    ensures r.Some? ==>
              && j <= r.value < ClusterCount(layers[p])
              && Contained(layers, child, ClusterRef(p, r.value))
              && forall j' :: j <= j' < r.value ==> !Contained(layers, child, ClusterRef(p, j'))
    ensures r.None? ==> forall j' :: j <= j' < ClusterCount(layers[p]) ==> !Contained(layers, child, ClusterRef(p, j'))
    decreases ClusterCount(layers[p]) - j
  {
    if j >= ClusterCount(layers[p]) then None
    else if Contained(layers, child, ClusterRef(p, j)) then Some(j)
    else FirstContainerFrom(layers, child, p, j + 1)
  }

  /** The first container of `child` found searching layer `p` upward,
      or the root when there is none. */
  function ContainerFrom(layers: seq<seq<int>>, child: ClusterRef, p: int): (r: ClusterRef)
    requires 0 <= child.layer < p <= |layers|
    ensures p <= r.layer <= |layers|
    ensures r.layer == |layers| ==> r == Root(layers)
    ensures r.layer < |layers| ==> IsCluster(layers, r) && Contained(layers, child, r)
    ensures forall q :: p <= q < r.layer ==> NoContainerIn(layers, child, q)
    decreases |layers| - p
  {
    if p == |layers| then Root(layers)
    else
      match FirstContainerFrom(layers, child, p, 0)
      case Some(j) => ClusterRef(p, j)
      case None => ContainerFrom(layers, child, p + 1)
  }

  /** The parent the builder gives a cluster: a cluster of the nearest
      strictly coarser layer that contains it (the smallest such id), or the
      root when no coarser layer has one. */
  function NearestContainer(layers: seq<seq<int>>, child: ClusterRef): (r: ClusterRef)
    requires 0 <= child.layer < |layers|
    ensures child.layer < r.layer <= |layers|
    ensures r.layer < |layers| ==> IsCluster(layers, r) && Contained(layers, child, r)
    ensures r.layer == |layers| ==> r == Root(layers)
    ensures forall q :: child.layer < q < r.layer ==> NoContainerIn(layers, child, q)
  {
    ContainerFrom(layers, child, child.layer + 1)
  }

  /** The raw rows of one layer, one per cluster id in id order. */
  function LayerEdges(layers: seq<seq<int>>, c: nat): seq<Edge>
    requires c < |layers|
  {
    seq(ClusterCount(layers[c]), k requires 0 <= k < ClusterCount(layers[c]) =>
      Edge(NearestContainer(layers, ClusterRef(c, k)), ClusterRef(c, k)))
  }

  /** The raw rows of layers `c` and above, finest layer first. */
  function EdgesFrom(layers: seq<seq<int>>, c: nat): seq<Edge>
    requires c <= |layers|
    decreases |layers| - c
  {
    if c == |layers| then [] else LayerEdges(layers, c) + EdgesFrom(layers, c + 1)
  }

  /** The raw builder's output: `(parent_layer, parent_cluster, child_layer,
      child_cluster)` for every cluster of every layer. */
  function RawClusterTree(layers: seq<seq<int>>): (rows: seq<Edge>)
    ensures forall e :: e in rows <==> IsNearestEdge(layers, e)
    ensures ChildrenDistinct(rows)
  {
    EdgesFromChildrenDistinct(layers, 0);
    assert forall e :: e in EdgesFrom(layers, 0) <==> IsNearestEdge(layers, e) by {
      forall e
        ensures e in EdgesFrom(layers, 0) <==> IsNearestEdge(layers, e)
      {
        EdgesFromMembership(layers, 0, e);
      }
    }
    EdgesFrom(layers, 0)
  }

  /** The rows of layer `c` are exactly the nearest-container rows of its clusters. */
  lemma LayerEdgesMembership(layers: seq<seq<int>>, c: nat, e: Edge)
    requires c < |layers|
    ensures e in LayerEdges(layers, c) <==> e.child.layer == c && IsNearestEdge(layers, e)
  {
    var rows := LayerEdges(layers, c);
    if e in rows {
      var k :| 0 <= k < |rows| && rows[k] == e;
    }
    if e.child.layer == c && IsNearestEdge(layers, e) {
      assert rows[e.child.cluster] == e;
    }
  }

  /** The raw rows hold exactly one row per cluster of layer `c` and above,
      and that row names its nearest container. */
  lemma {:induction false} EdgesFromMembership(layers: seq<seq<int>>, c: nat, e: Edge)
    requires c <= |layers|
    ensures e in EdgesFrom(layers, c) <==> c <= e.child.layer && IsNearestEdge(layers, e)
    decreases |layers| - c
  {
    if c < |layers| {
      var here, above := LayerEdges(layers, c), EdgesFrom(layers, c + 1);
      assert EdgesFrom(layers, c) == here + above;
      EdgesFromMembership(layers, c + 1, e);
      LayerEdgesMembership(layers, c, e);
      assert e in here + above <==> e in here || e in above;
    }
  }

  /** No child occurs in two raw rows. */
  lemma {:induction false} EdgesFromChildrenDistinct(layers: seq<seq<int>>, c: nat)
    requires c <= |layers|
    ensures ChildrenDistinct(EdgesFrom(layers, c))
    decreases |layers| - c
  {
    if c < |layers| {
      EdgesFromChildrenDistinct(layers, c + 1);
      var here, above := LayerEdges(layers, c), EdgesFrom(layers, c + 1);
      forall e | e in above
        ensures e.child.layer > c
      {
        EdgesFromMembership(layers, c + 1, e);
      }
      var all := here + above;
      forall i, j | 0 <= i < j < |all|
        ensures all[i].child != all[j].child
      {
        if j >= |here| && i < |here| {
          assert all[j] in above;
        }
      }
    }
  }

  /** A cluster that holds a non-empty cluster of the layer just below is
      that cluster's nearest container: no layer lies in between, and the
      shared point `x` fixes the id. */
  lemma NearestContainerOfFinerCluster(layers: seq<seq<int>>, r: ClusterRef, x: int)
    requires HoldsFinerCluster(layers, r, x)
    ensures IsCluster(layers, ClusterRef(r.layer - 1, layers[r.layer - 1][x]))
    ensures NearestContainer(layers, ClusterRef(r.layer - 1, layers[r.layer - 1][x])) == r
  {
    var i := r.layer - 1;
    var child := ClusterRef(i, layers[i][x]);
    assert layers[i][x] in layers[i];
    var found := NearestContainer(layers, child);
    assert found.layer <= r.layer by {
      assert !NoContainerIn(layers, child, r.layer);
    }
    assert found.layer < |layers| && Contained(layers, child, found);
    assert layers[found.layer][x] == found.cluster;
  }

  /** Every child in `tree` is a cluster listed under its nearest container. */
  ghost predicate AttachedToNearest(layers: seq<seq<int>>, tree: Tree) {
    forall p, c :: p in tree && c in tree[p] ==> IsNearestEdge(layers, Edge(p, c))
  }

  /** `e` attaches a cluster to its nearest container. */
  predicate IsNearestEdge(layers: seq<seq<int>>, e: Edge) {
    IsCluster(layers, e.child) && e.parent == NearestContainer(layers, e.child)
  }

  /** `build_cluster_tree`: the raw rows grouped by parent. The tree passes
      the tree tests; each cluster sits under its nearest container; the keys
      are exactly the nearest containers; and every cluster above layer 0
      that holds a non-empty cluster of the layer just below is a key. */
  method BuildClusterTree(layers: seq<seq<int>>) returns (tree: Tree)
    ensures ValidTree(layers, tree)
    ensures forall p :: p in tree ==> |tree[p]| > 0
    ensures AttachedToNearest(layers, tree)
    ensures KeysAreContainers(layers, tree)
    ensures forall r, x :: HoldsFinerCluster(layers, r, x) ==> r in tree
  {
    var rows := RawClusterTree(layers);
    tree := GroupRows(rows);
    GroupedRawRowsAreNearest(layers, tree);
    NearestEdgesAreContained(layers, tree);
    GroupingKeepsChildrenUnique(rows, tree);
    GroupedRawRowsCoverClusters(layers, tree);
    GroupedKeysHaveChildren(rows, tree);
    GroupedKeysAreContainers(layers, tree);
    forall r, x | HoldsFinerCluster(layers, r, x)
      ensures r in tree
    {
      FinerClusterMakesKey(layers, tree, r, x);
    }
  }

  /** Each child in the grouped raw rows sits under its nearest container. */
  lemma GroupedRawRowsAreNearest(layers: seq<seq<int>>, tree: Tree)
    requires IsGrouping(RawClusterTree(layers), tree)
    ensures AttachedToNearest(layers, tree)
  {
    forall p, c | p in tree && c in tree[p]
      ensures IsNearestEdge(layers, Edge(p, c))
    {
      GroupedEdges(RawClusterTree(layers), tree, p, c);
    }
  }

  /** Attaching each cluster to its nearest container passes the layer and
      containment tests. */
  lemma NearestEdgesAreContained(layers: seq<seq<int>>, tree: Tree)
    requires AttachedToNearest(layers, tree)
    ensures forall p, c :: p in tree && c in tree[p] ==>
              0 <= c.layer < p.layer && (p.layer < |layers| ==> Contained(layers, c, p))
  {
    forall p, c | p in tree && c in tree[p]
      ensures 0 <= c.layer < p.layer && (p.layer < |layers| ==> Contained(layers, c, p))
    {
      assert IsCluster(layers, c) && p == NearestContainer(layers, c);
    }
  }

  /** Every cluster of every layer is a child in the grouped raw rows. */
  lemma GroupedRawRowsCoverClusters(layers: seq<seq<int>>, tree: Tree)
    requires IsGrouping(RawClusterTree(layers), tree)
    ensures forall r :: IsCluster(layers, r) ==> InTree(tree, r)
  {
    forall r | IsCluster(layers, r)
      ensures InTree(tree, r)
    {
      var p := NearestContainer(layers, r);
      GroupedEdges(RawClusterTree(layers), tree, p, r);
    }
  }

  /** A key is created only together with a child. */
  lemma GroupedKeysHaveChildren(rows: seq<Edge>, tree: Tree)
    requires IsGrouping(rows, tree)
    ensures forall p :: p in tree ==> |tree[p]| > 0
  {
    forall p | p in tree
      ensures |tree[p]| > 0
    {
      ParentsHaveChildren(rows, p);
    }
  }

  /** The grouped raw rows have a key for a cluster exactly when it is the
      nearest container of some cluster. */
  lemma GroupedKeysAreContainers(layers: seq<seq<int>>, tree: Tree)
    requires IsGrouping(RawClusterTree(layers), tree)
    ensures KeysAreContainers(layers, tree)
  {
    GroupedKeysHaveChildren(RawClusterTree(layers), tree);
    GroupedRawRowsAreNearest(layers, tree);
    forall r
      ensures r in tree <==> exists c :: IsCluster(layers, c) && NearestContainer(layers, c) == r
    {
      if r in tree {
        var c := tree[r][0];
        assert IsNearestEdge(layers, Edge(r, c));
      }
      if c :| IsCluster(layers, c) && NearestContainer(layers, c) == r {
        GroupedEdges(RawClusterTree(layers), tree, r, c);
      }
    }
  }

  /** In a valid tree that attaches every cluster to its nearest container, a
      cluster holding a non-empty cluster of the layer just below has
      children, so it is a key. */
  lemma FinerClusterMakesKey(layers: seq<seq<int>>, tree: Tree, r: ClusterRef, x: int)
    requires ValidTree(layers, tree) && AttachedToNearest(layers, tree)
    requires HoldsFinerCluster(layers, r, x)
    ensures r in tree
  {
    NearestContainerOfFinerCluster(layers, r, x);
    var child := ClusterRef(r.layer - 1, layers[r.layer - 1][x]);
    assert InTree(tree, child);
    var p :| p in tree && child in tree[p];
    assert IsNearestEdge(layers, Edge(p, child));
  }

  /** A valid tree is a forest: a cluster listed under two parents is
      listed under one parent. */
  lemma UniqueParent(layers: seq<seq<int>>, tree: Tree, p: ClusterRef, q: ClusterRef, c: ClusterRef)
    requires ValidTree(layers, tree)
    requires p in tree && q in tree && c in tree[p] && c in tree[q]
    ensures p == q
  {
    var i :| 0 <= i < |tree[p]| && tree[p][i] == c;
    var j :| 0 <= j < |tree[q]| && tree[q][j] == c;
  }
}
