/** Grouping the raw containment rows `(parent_layer, parent_cluster,
    child_layer, child_cluster)` into a map from each parent reference to
    the list of its children, in row order. */
module TreeGrouping {

  /** A cluster named by its layer and its id within that layer. */
  datatype ClusterRef = ClusterRef(layer: int, cluster: int)

  /** One raw row: `child` is attached under `parent`. */
  datatype Edge = Edge(parent: ClusterRef, child: ClusterRef)

  type Tree = map<ClusterRef, seq<ClusterRef>>

  /** The children listed under `p`, in the order their rows occur. */
  function ChildrenOf(rows: seq<Edge>, p: ClusterRef): (children: seq<ClusterRef>)
    ensures |children| <= |rows|
  {
    if |rows| == 0 then []
    else
      var n := |rows| - 1;
      ChildrenOf(rows[..n], p) + (if rows[n].parent == p then [rows[n].child] else [])
  }

  /** The parents named by some row. */
  function Parents(rows: seq<Edge>): set<ClusterRef> {
    if |rows| == 0 then {}
    else
      var n := |rows| - 1;
      Parents(rows[..n]) + {rows[n].parent}
  }

  /** `tree` is the grouping of `rows`: a key for every parent that occurs in
      some row and for no other, holding that parent's children in row order. */
  ghost predicate IsGrouping(rows: seq<Edge>, tree: Tree) {
    && tree.Keys == Parents(rows)
    && forall p :: p in tree ==> tree[p] == ChildrenOf(rows, p)
  }

  /** No two rows attach the same child. */
  predicate ChildrenDistinct(rows: seq<Edge>) {
    forall i, j :: 0 <= i < j < |rows| ==> rows[i].child != rows[j].child
  }

  /** No cluster reference is listed twice, under one parent or under two. */
  ghost predicate NoDuplicateChildren(tree: Tree) {
    forall p, q, i, j ::
      p in tree && q in tree && 0 <= i < |tree[p]| && 0 <= j < |tree[q]| && (p != q || i != j) ==>
        tree[p][i] != tree[q][j]
  }

  /** The dictionary-building loop: append to an existing list, or start a
      new one for a parent seen for the first time. */
  method GroupRows(rows: seq<Edge>) returns (tree: Tree)
    ensures IsGrouping(rows, tree)
  {
    tree := map[];
    for n := 0 to |rows|
      invariant IsGrouping(rows[..n], tree)
    {
      assert rows[..n + 1][..n] == rows[..n];
      var e := rows[n];
      if e.parent in tree {
        tree := tree[e.parent := tree[e.parent] + [e.child]];
      } else {
        ParentsHaveChildren(rows[..n], e.parent);
        tree := tree[e.parent := [e.child]];
      }
    }
    assert rows[..|rows|] == rows;
  }

  /** A child is listed under `p` exactly when some row attaches it to `p`. */
  lemma {:induction false} ChildrenOfMembership(rows: seq<Edge>, p: ClusterRef, c: ClusterRef)
    ensures c in ChildrenOf(rows, p) <==> Edge(p, c) in rows
  {
    if |rows| > 0 {
      var n := |rows| - 1;
      ChildrenOfMembership(rows[..n], p, c);
      assert rows == rows[..n] + [rows[n]];
    }
  }

  /** A parent is named by some row exactly when it has children. */
  lemma {:induction false} ParentsHaveChildren(rows: seq<Edge>, p: ClusterRef)
    ensures p in Parents(rows) <==> ChildrenOf(rows, p) != []
  {
    if |rows| > 0 {
      ParentsHaveChildren(rows[..|rows| - 1], p);
    }
  }

  /** Grouping concatenated rows concatenates the per-parent lists: the
      order of the rows is the order of each list. */
  lemma {:induction false} ChildrenOfConcat(rows1: seq<Edge>, rows2: seq<Edge>, p: ClusterRef)
    ensures ChildrenOf(rows1 + rows2, p) == ChildrenOf(rows1, p) + ChildrenOf(rows2, p)
    decreases |rows2|
  {
    if |rows2| == 0 {
      assert rows1 + rows2 == rows1;
    } else {
      var n := |rows2| - 1;
      ChildrenOfConcat(rows1, rows2[..n], p);
      assert (rows1 + rows2)[..|rows1| + n] == rows1 + rows2[..n];
    }
  }

  /** Rows that never repeat a child give a list that never repeats one. */
  lemma {:induction false} ChildrenOfDistinct(rows: seq<Edge>, p: ClusterRef)
    requires ChildrenDistinct(rows)
    ensures forall i, j :: 0 <= i < j < |ChildrenOf(rows, p)| ==> ChildrenOf(rows, p)[i] != ChildrenOf(rows, p)[j]
  {
    if |rows| > 0 {
      var n := |rows| - 1;
      var prefix := rows[..n];
      ChildrenOfDistinct(prefix, p);
      var c := rows[n].child;
      forall i | 0 <= i < n
        ensures prefix[i] != Edge(p, c)
      {
        assert rows[i].child != rows[n].child;
      }
      ChildrenOfMembership(prefix, p, c);
    }
  }

  /** Each listed pair is a row, and each row is listed. */
  lemma GroupedEdges(rows: seq<Edge>, tree: Tree, p: ClusterRef, c: ClusterRef)
    requires IsGrouping(rows, tree)
    ensures (p in tree && c in tree[p]) <==> Edge(p, c) in rows
  {
    ChildrenOfMembership(rows, p, c);
    ParentsHaveChildren(rows, p);
  }

  /** Grouping keeps children unique: the concatenation of all the lists
      has no duplicate when the rows have none. */
  lemma GroupingKeepsChildrenUnique(rows: seq<Edge>, tree: Tree)
    requires IsGrouping(rows, tree)
    requires ChildrenDistinct(rows)
    ensures NoDuplicateChildren(tree)
  {
    forall p, q, i, j |
      p in tree && q in tree && 0 <= i < |tree[p]| && 0 <= j < |tree[q]| && (p != q || i != j)
      ensures tree[p][i] != tree[q][j]
    {
      if p == q {
        ChildrenOfDistinct(rows, p);
      } else {
        var c := tree[p][i];
        GroupedEdges(rows, tree, p, c);
        var a :| 0 <= a < |rows| && rows[a] == Edge(p, c);
        forall b | 0 <= b < |rows|
          ensures rows[b] != Edge(q, c)
        {
          if b != a {
            assert rows[b].child != rows[a].child;
          }
        }
        GroupedEdges(rows, tree, q, c);
      }
    }
  }
}
