/** The loaded graph in compressed-sparse-row form and what it means for it to
    stand for an edge list. */
module Csr {
  import opened Seqs
  import opened PrefixSum
  import opened EdgeList
  import opened Adjacency

  /** Vertex count, per-vertex degrees, offsets into the flat neighbour array,
      the neighbour array itself, and the number of undirected edges. */
  datatype Graph = Graph(
    vertexCount: nat,
    degrees: seq<nat>,
    offsets: seq<nat>,
    neighbours: seq<nat>,
    edgeCount: nat)

  /** CSR shape: the offsets are the exclusive scan of the degrees, the last one
      is the length of the neighbour array, and that length is twice the edge count. */
  predicate WellFormed(g: Graph) {
    && |g.degrees| == g.vertexCount
    && IsExclusiveScan(g.offsets, g.degrees)
    && g.offsets[g.vertexCount] == |g.neighbours|
    && |g.neighbours| == 2 * g.edgeCount
  }

  /** The neighbours of `u`: the slice between its offset and the next. */
  function Row(g: Graph, u: nat): (r: seq<nat>)
    requires WellFormed(g) && u < g.vertexCount
    ensures |r| == g.degrees[u]
  {
    ScanMonotone(g.offsets, g.degrees);
    g.neighbours[g.offsets[u]..g.offsets[u + 1]]
  }

  /** Every row is strictly ascending. */
  predicate SortedRows(g: Graph)
    requires WellFormed(g)
  {
    forall u :: 0 <= u < g.vertexCount ==> StrictlyAscending(Row(g, u))
  }

  /** `g` is the graph of `e`: one vertex per id up to the largest endpoint,
      and the values of row `u` are exactly the neighbours of `u`. */
  predicate Represents(g: Graph, e: seq<Edge>) {
    && WellFormed(g)
    && SortedRows(g)
    && g.vertexCount > 0
    && IsMaxEndpoint(e, g.vertexCount - 1)
    && forall u :: 0 <= u < g.vertexCount ==> Elems(Row(g, u)) == Neighbours(e, u)
  }

  /** A graph that stands for an edge list is undirected and simple: rows hold
      valid vertices, never the row's own vertex, and `v` is in the row of `u`
      exactly when `u` is in the row of `v`. */
  lemma RepresentedIsSimple(g: Graph, e: seq<Edge>)
    requires Represents(g, e)
    ensures forall u, v :: 0 <= u < g.vertexCount && v in Row(g, u) ==> v < g.vertexCount
    ensures forall u :: 0 <= u < g.vertexCount ==> u !in Row(g, u)
    ensures forall u, v :: 0 <= u < g.vertexCount && 0 <= v < g.vertexCount
              ==> (v in Row(g, u) <==> u in Row(g, v))
  {
    forall u, v | 0 <= u < g.vertexCount && 0 <= v
      ensures v in Row(g, u) <==> Adjacent(e, u, v)
    {
      assert v in Row(g, u) <==> v in Elems(Row(g, u));
      NeighboursAdjacent(e, u, v);
    }
    forall u, v | 0 <= u < g.vertexCount && v in Row(g, u)
      ensures v < g.vertexCount
    {
      NeighboursBelow(e, g.vertexCount, u);
      assert v in Elems(Row(g, u));
    }
  }

  /** Every position of the neighbour array lies in the row of some vertex. */
  lemma {:induction false} RowContaining(off: seq<nat>, d: seq<nat>, k: nat, j: nat)
    requires IsExclusiveScan(off, d)
    requires k <= |d| && j < off[k]
    ensures exists u :: 0 <= u < k && off[u] <= j < off[u + 1]
  {
    if j < off[k - 1] {
      RowContaining(off, d, k - 1, j);
    }
  }

  /** Neighbour arrays cut by the same offsets and equal row by row are equal. */
  lemma SameRowsSameArray(off: seq<nat>, d: seq<nat>, nb1: seq<nat>, nb2: seq<nat>)
    requires IsExclusiveScan(off, d)
    requires |nb1| == off[|d|] && |nb2| == off[|d|]
    requires forall u :: 0 <= u < |d| ==> off[u] <= off[u + 1] && nb1[off[u]..off[u + 1]] == nb2[off[u]..off[u + 1]]
    ensures nb1 == nb2
  {
    forall j | 0 <= j < |nb1|
      ensures nb1[j] == nb2[j]
    {
      RowContaining(off, d, |d|, j);
      var u :| 0 <= u < |d| && off[u] <= j < off[u + 1];
      assert nb1[j] == nb1[off[u]..off[u + 1]][j - off[u]];
      assert nb2[j] == nb2[off[u]..off[u + 1]][j - off[u]];
    }
  }

  /** A well-formed graph with sorted rows is fixed by its vertex count and the
      set of values in each row. */
  lemma RowsDetermineGraph(g1: Graph, g2: Graph)
    requires WellFormed(g1) && SortedRows(g1)
    requires WellFormed(g2) && SortedRows(g2)
    requires g1.vertexCount == g2.vertexCount
    requires forall u :: 0 <= u < g1.vertexCount ==> Elems(Row(g1, u)) == Elems(Row(g2, u))
    ensures g1 == g2
  {
    var n := g1.vertexCount;
    forall u | 0 <= u < n
      ensures Row(g1, u) == Row(g2, u)
    {
      StrictlyAscendingUnique(Row(g1, u), Row(g2, u));
    }
    assert g1.degrees == g2.degrees by {
      forall u | 0 <= u < n
        ensures g1.degrees[u] == g2.degrees[u]
      {
        assert |Row(g1, u)| == |Row(g2, u)|;
      }
    }
    ScanUnique(g1.offsets, g2.offsets, g1.degrees);
    ScanMonotone(g1.offsets, g1.degrees);
    forall u | 0 <= u < n
      ensures g1.neighbours[g1.offsets[u]..g1.offsets[u + 1]] == g2.neighbours[g1.offsets[u]..g1.offsets[u + 1]]
    {
      assert Row(g1, u) == Row(g2, u);
    }
    SameRowsSameArray(g1.offsets, g1.degrees, g1.neighbours, g2.neighbours);
  }

  /** The loaded graph depends only on the largest vertex id and on the set of
      unordered pairs of distinct vertices: not on edge order, edge direction,
      repeated edges or self-loops. */
  lemma DependsOnlyOnPairs(e1: seq<Edge>, e2: seq<Edge>, m: nat, g1: Graph, g2: Graph)
    requires IsMaxEndpoint(e1, m) && IsMaxEndpoint(e2, m)
    requires UndirectedPairs(e1) == UndirectedPairs(e2)
    requires Represents(g1, e1) && Represents(g2, e2)
    ensures g1 == g2
  {
    PairsDetermineAdjacency(e1, e2);
    forall u | 0 <= u < g1.vertexCount
      ensures Elems(Row(g1, u)) == Elems(Row(g2, u))
    {
      forall v
        ensures v in Neighbours(e1, u) <==> v in Neighbours(e2, u)
      {
        NeighboursAdjacent(e1, u, v);
        NeighboursAdjacent(e2, u, v);
      }
    }
    RowsDetermineGraph(g1, g2);
  }

  /** In particular, two edge lists holding the same edges, in any order and
      with any repetition, load to the same graph. */
  lemma SameEdgesSameGraph(e1: seq<Edge>, e2: seq<Edge>, g1: Graph, g2: Graph)
    requires forall d :: d in e1 <==> d in e2
    requires Represents(g1, e1) && Represents(g2, e2)
    ensures g1 == g2
  {
    var m := g1.vertexCount - 1;
    assert IsMaxEndpoint(e2, m) by {
      var i :| 0 <= i < |e1| && (e1[i].src == m || e1[i].dst == m);
      assert e1[i] in e2;
      forall j | 0 <= j < |e2|
        ensures e2[j].src <= m && e2[j].dst <= m
      {
        assert e2[j] in e1;
      }
    }
    assert UndirectedPairs(e1) == UndirectedPairs(e2) by {
      forall p | p in UndirectedPairs(e1)
        ensures p in UndirectedPairs(e2)
      {
        var i :| 0 <= i < |e1| && e1[i].src != e1[i].dst && Canonical(e1[i]) == p;
        assert e1[i] in e2;
      }
      forall p | p in UndirectedPairs(e2)
        ensures p in UndirectedPairs(e1)
      {
        var i :| 0 <= i < |e2| && e2[i].src != e2[i].dst && Canonical(e2[i]) == p;
        assert e2[i] in e1;
      }
    }
    DependsOnlyOnPairs(e1, e2, m, g1, g2);
  }
}
