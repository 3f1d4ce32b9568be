# Toponymy clustering core: centroids and the cluster containment tree

Toponymy clusters document embeddings into several layers, finest first. Each
layer is a label vector: one integer per point, where `-1` marks noise and any
other value is a cluster id. This project models the two pieces of
`toponymy.clustering` that the repository's tests pin down exactly. It proves
what those tests promise.

- **Centroid aggregation** (`centroids_from_labels`). A label vector and an
  N×D matrix of vectors give a table with `max(labels) + 1` rows. Row `k` is
  the mean of the vectors labelled `k`. It is the zero vector when no point
  carries `k`, so the row index is always the cluster id, even when ids have
  gaps. Noise points contribute nothing.
  - `Centroids.CentroidTable` is the reference: the test's comprehension of
    per-cluster means.
  - `Centroids.Aggregate` is a single pass. It accumulates per-cluster sums
    and counts in two arrays indexed by cluster id, then divides each sum by
    its count. It is proved equal to the reference.
  - `Centroids.CentroidsFromLabels` adds the error cases: an empty label
    vector, or a label vector and matrix that disagree in shape.
- **Cluster containment tree** (`build_cluster_tree` / `_build_cluster_tree`).
  A cluster is named by a reference `(layer, cluster id)`.
  - The raw builder emits one row `(parent_layer, parent_cluster,
    child_layer, child_cluster)` for every cluster of every layer.
  - The dictionary-building loop groups these rows into a map. It sends each
    parent reference to its children, in row order.
  - The artificial root has the layer index `len(layers)`.
  - `ClusterTree.ValidTree` states the tree tests:
    - a parent's layer is strictly above its child's;
    - unless the parent is the root, every point of the child carries the
      parent's label;
    - no child is listed twice;
    - every cluster of every layer is listed.
  - `ClusterTree.BuildClusterTree` attaches every cluster to its nearest
    container: a cluster of the nearest strictly coarser layer that holds all
    of its points, with the smallest id among those. A cluster with no such
    container goes under the root. The builder is proved to produce a valid
    tree. Its keys are exactly the clusters that are some cluster's nearest
    container. So every cluster above layer 0 that holds a non-empty cluster
    of the layer just below is a parent key.

Vectors are sequences of `real`. Integers are unbounded.

Files:
- `labels.dfy`: the largest label and the cluster count `max(labels) + 1`.
- `centroids.dfy`: the reference table, the accumulating pass and their
  properties.
- `grouping.dfy`: grouping raw rows into the parent → children map.
- `cluster_tree.dfy`: the validity predicate, the nearest-container search,
  the raw rows and the builder.

## Model

| member | source | states |
|---|---|---|
| Labels.MaxLabel | toponymy/tests/test_clustering.py:34 | `labels.max()` is a label of the vector and no label exceeds it |
| Labels.ClusterCount | toponymy/tests/test_clustering.py:34 | `max(labels) + 1` bounds every non-negative label, and the largest id below it is a label; a vector of noise spans no cluster |
| Labels.ClusterCountIgnoresNoise | toponymy/tests/test_clustering.py:24-34 | appending a noise label leaves the number of rows unchanged |
| Centroids.Members | toponymy/tests/test_clustering.py:30 | `vector_data[cluster_labels == k]`: the rows labelled `k`, in order, drawn from the matrix and no more numerous than the points |
| Centroids.Mean | toponymy/tests/test_clustering.py:30 | `mean(axis=0)`: a vector of width D whose every coordinate times the number of rows is that column's sum |
| Centroids.CentroidTable | toponymy/tests/test_clustering.py:27-36 | the reference table has `max(labels) + 1` rows, each of width D |
| Centroids.Aggregate | toponymy/tests/test_clustering.py:26-37 | the accumulating pass over arrays of sums and counts returns exactly the reference table (the test's `assert_array_equal`) |
| Centroids.AccumulatedTable | toponymy/tests/test_clustering.py:27-36 | dividing the sums accumulated over all points by their counts, with zero for an empty count, gives the reference table |
| Centroids.AccumulatedCount | toponymy/tests/test_clustering.py:31 | after `p` points, slot `k` of the count array is the number of those points labelled `k` |
| Centroids.AccumulatedSum | toponymy/tests/test_clustering.py:30 | after `p` points, slot `k` of the sum array is the column sum of those points' vectors labelled `k` |
| Centroids.MembersSnoc | toponymy/tests/test_clustering.py:30 | one more point extends the member rows of its own cluster and of no other |
| Centroids.CentroidsFromLabels | toponymy/tests/test_clustering.py:24-26 | an empty label vector and a label vector and matrix of different shapes are errors; otherwise the result is the reference table |
| Centroids.MembersCount | toponymy/tests/test_clustering.py:31 | the number of rows averaged for `k` is `np.sum(cluster_labels == k)`, the multiplicity of `k` in the labels |
| Centroids.MembersAreLabelled | toponymy/tests/test_clustering.py:30 | a vector is averaged into row `k` exactly when some point labelled `k` carries it (both directions) |
| Centroids.MembersIgnoreOtherRows | toponymy/tests/test_clustering.py:30 | the rows averaged for `k` depend only on the points labelled `k` |
| Centroids.GapRowIsZero | toponymy/tests/test_clustering.py:31-34 | an id in `0..max(labels)` that no point carries gets the zero vector, not an omitted row |
| Centroids.NoiseVectorsIgnored | toponymy/tests/test_clustering.py:24-34 | the vectors of noise points can be changed arbitrarily without changing the table |
| Centroids.AddingNoisePointChangesNothing | toponymy/tests/test_clustering.py:24-34 | appending a point labelled `-1`, with any vector, leaves the table unchanged, its row count included |
| Centroids.CentroidWithinMemberRange | toponymy/tests/test_clustering.py:30 | in every coordinate, the centroid of a non-empty cluster lies between the smallest and the largest value its members take |
| Centroids.CentroidOfIdenticalMembers | toponymy/tests/test_clustering.py:30 | a cluster whose points all carry the same vector has that vector as its centroid |
| TreeGrouping.GroupRows | toponymy/tests/test_clustering.py:115-122 | the loop's dictionary has a key for exactly the parents that occur in some row; each key holds that parent's children in row order |
| TreeGrouping.ChildrenOfMembership | toponymy/tests/test_clustering.py:117-122 | a child is listed under a parent exactly when some row attaches it to that parent |
| TreeGrouping.ParentsHaveChildren | toponymy/tests/test_clustering.py:119-122 | a key is created exactly for a parent that has a child, so no list is empty |
| TreeGrouping.ChildrenOfConcat | toponymy/tests/test_clustering.py:117-120 | grouping concatenated rows concatenates each parent's list: appending keeps row order |
| TreeGrouping.ChildrenOfDistinct | toponymy/tests/test_clustering.py:138-139 | rows that never repeat a child give a list without repeats |
| TreeGrouping.GroupedEdges | toponymy/tests/test_clustering.py:115-122 | a pair (parent, child) is in the dictionary exactly when it is a row |
| TreeGrouping.GroupingKeepsChildrenUnique | toponymy/tests/test_clustering.py:138-139 | when no two rows share a child, `sum(cluster_tree.values(), [])` has no duplicate |
| ClusterTree.Contained | toponymy/tests/test_clustering.py:83-87 | the containment test: every point carrying the child's label in the child's layer carries the parent's label in the parent's layer |
| TreeGrouping.NoDuplicateChildren | toponymy/tests/test_clustering.py:90-91 | `sum(cluster_tree.values(), [])` has no repeated cluster: no list repeats a child and no two lists share one |
| ClusterTree.ValidTree | toponymy/tests/test_clustering.py:77-97 | the tree tests together: parent layer above child layer, containment unless the parent is the root, no duplicate child, every `(i, j)` with `j <= max(layer i)` listed |
| ClusterTree.KeysAreContainers | toponymy/tests/test_clustering.py:144-145 | which clusters are keys: exactly those that are the nearest container of some cluster |
| ClusterTree.FirstContainerFrom | toponymy/tests/test_clustering.py:131-135 | the id found is the smallest id in a layer whose cluster holds every point of the child, or there is none |
| ClusterTree.ContainerFrom | toponymy/tests/test_clustering.py:127-135 | searching upward from a layer finds a containing cluster at the first layer that has one, or else the root |
| ClusterTree.NearestContainer | toponymy/tests/test_clustering.py:127-135 | a cluster's parent is in a strictly coarser layer and holds all of its points, no layer in between has a container, and otherwise the parent is the root |
| ClusterTree.RawClusterTree | toponymy/tests/test_clustering.py:116 | the raw rows are exactly the rows attaching each cluster of each layer to its nearest container, and no child occurs twice |
| ClusterTree.LayerEdgesMembership | toponymy/tests/test_clustering.py:116-117 | the raw rows of one layer are exactly one nearest-container row per cluster id of that layer |
| ClusterTree.EdgesFromMembership | toponymy/tests/test_clustering.py:116-117 | the raw rows are exactly one row per cluster of every layer, naming its nearest container |
| ClusterTree.EdgesFromChildrenDistinct | toponymy/tests/test_clustering.py:138-139 | no two raw rows name the same child |
| ClusterTree.NearestContainerOfFinerCluster | toponymy/tests/test_clustering.py:127-135 | a cluster holding every point of a non-empty cluster of the layer just below is that cluster's nearest container |
| ClusterTree.BuildClusterTree | toponymy/tests/test_clustering.py:74-97 | the tree passes all the tree tests (layer order, containment except under the root, no duplicate child, every cluster covered); no list is empty; each cluster sits under its nearest container; the keys are exactly the nearest containers; every cluster above layer 0 holding a non-empty cluster of the layer just below is a key |
| ClusterTree.GroupedRawRowsAreNearest | toponymy/tests/test_clustering.py:115-122 | every pair in the grouped raw rows is a cluster under its nearest container |
| ClusterTree.NearestEdgesAreContained | toponymy/tests/test_clustering.py:124-135 | a tree whose every child sits under its nearest container passes the layer-order and containment tests |
| ClusterTree.GroupedRawRowsCoverClusters | toponymy/tests/test_clustering.py:140-143 | every `(i, j)` with `j <= max(layer i)` is listed as a child |
| ClusterTree.GroupedKeysHaveChildren | toponymy/tests/test_clustering.py:119-122 | every key of the grouped rows has a non-empty list |
| ClusterTree.GroupedKeysAreContainers | toponymy/tests/test_clustering.py:115-122 | grouping the raw rows creates a key for a cluster exactly when it is the nearest container of some cluster |
| ClusterTree.FinerClusterMakesKey | toponymy/tests/test_clustering.py:140-145 | in a valid tree attaching clusters to nearest containers, a cluster above layer 0 that holds a non-empty cluster of the layer just below is a parent key |
| ClusterTree.UniqueParent | toponymy/tests/test_clustering.py:138-139 | in a valid tree a cluster has one parent: the tree is a forest under the root |

## Left out

- The clustering strategies and the raw layering (`build_raw_cluster_layers`, `create_cluster_layers`, `ToponymyClusterer`, `KMeansClusterer`, `EVoCClusterer`) are not modelled. They wrap density-based, k-means and ensemble clustering whose code is not part of this model. Their tests check only statistical outcomes.
- sklearn and scipy helpers and random data generation are not modelled: `make_blobs`, `adjusted_mutual_info_score`, `pairwise_distances`, `linear_sum_assignment`. They are foreign library calls.
- Floating point is not modelled: vectors are over `real`, so the model does not capture rounding in sums and means.
- The JIT-compiled and `.py_func` paths share one semantics and are modelled once.
- `ClusterLayerText` and the assembly of layer objects are not modelled. They are containers defined in a file that is not part of this model.
- The implementation module `toponymy/clustering.py` is not part of this model. The centroid pass and the builder follow the behaviour the tests fix, not that code.
- ClusterTree.BuildClusterTree: the builder's choice of parent is the nearest strictly coarser container with the smallest id. The order of the raw rows is layer by layer, then id by id. The tests fix neither choice; they check only the tree properties.
- ClusterTree.BuildClusterTree: a coarser cluster is required to hold all of a child's points, as the containment test demands. It is not required to hold a majority of them.
- ClusterTree.BuildClusterTree: the tests assert that every cluster above layer 0 is a parent key. The model proves this only for a cluster that holds a non-empty cluster of the layer just below. For arbitrary layers a coarser cluster may hold no finer cluster whole, and then it has no children. The model states the exact key set instead (`ClusterTree.KeysAreContainers`).
- Centroids.CentroidsFromLabels: when every label is noise, the model returns an empty table. The test's `np.vstack` of an empty list would raise there.
- Centroids.CentroidsFromLabels: the results `EmptyLabels` and `ShapeMismatch` are the model's own choice for inputs the tests never pass. numpy would raise an exception there instead.
- Centroids.CentroidsFromLabels: a label below `-1` is treated as noise. The reference only ranges over ids `0..max(labels)`.
- Labels.ClusterCount: an empty label vector spans no cluster. numpy's `max` raises on it. `CentroidsFromLabels` reports that case as an error.
- ClusterTree.ValidTree: the containment test compares whole label vectors. The model does not require the layers to have one length, and treats a point beyond a parent's layer as not contained.
