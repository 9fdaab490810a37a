/** Small worked inputs: the graph the loader must produce for them is pinned
    down completely by `Represents`. */
module Scenarios {
  import opened Seqs
  import opened PrefixSum
  import opened EdgeList
  import opened Adjacency
  import opened Csr

  /** Edges "0 1", "1 2", "0 1", "2 2": a repeated edge and a self-loop. */
  function SmallEdges(): seq<Edge> {
    [Edge(0, 1), Edge(1, 2), Edge(0, 1), Edge(2, 2)]
  }

  function SmallGraph(): Graph {
    Graph(3, [1, 2, 1], [0, 1, 3, 4], [1, 0, 2, 1], 2)
  }

  lemma SmallNeighbours()
    ensures Neighbours(SmallEdges(), 0) == {1}
    ensures Neighbours(SmallEdges(), 1) == {0, 2}
    ensures Neighbours(SmallEdges(), 2) == {1}
  {
    var e := SmallEdges();
    forall u, v | 0 <= u < 3
      ensures v in Neighbours(e, u) <==> Adjacent(e, u, v)
    {
      NeighboursAdjacent(e, u, v);
    }
    assert Joins(e[0], 0, 1) && Joins(e[1], 1, 2);
  }

  lemma SmallRows()
    ensures WellFormed(SmallGraph())
    ensures Row(SmallGraph(), 0) == [1] && Row(SmallGraph(), 1) == [0, 2] && Row(SmallGraph(), 2) == [1]
  {
    var h := SmallGraph();
    assert IsExclusiveScan(h.offsets, h.degrees);
  }

  lemma SmallGraphRepresents()
    ensures Represents(SmallGraph(), SmallEdges())
  {
    var e, h := SmallEdges(), SmallGraph();
    SmallRows();
    SmallNeighbours();
    assert StrictlyAscending([1]) && StrictlyAscending([0, 2]);
    assert Elems([1]) == {1} && Elems([0, 2]) == {0, 2};
    forall u | 0 <= u < 3
      ensures StrictlyAscending(Row(h, u)) && Elems(Row(h, u)) == Neighbours(e, u)
    {
      if u == 0 {
      } else if u == 1 {
      } else {
      }
    }
    assert e[1].dst == 2;
  }

  /** The repeated edge is kept once, the self-loop is dropped, and vertex 2
      still counts towards the vertex total. */
  lemma SmallGraphLoads(g: Graph)
    requires Represents(g, SmallEdges())
    ensures g == SmallGraph()
  {
    SmallGraphRepresents();
    RowsDetermineGraph(g, SmallGraph());
  }

  /** A lone self-loop on vertex 5 yields six isolated vertices. */
  lemma SelfLoopOnlyLoads(g: Graph)
    requires Represents(g, [Edge(5, 5)])
    ensures g == Graph(6, [0, 0, 0, 0, 0, 0], [0, 0, 0, 0, 0, 0, 0], [], 0)
  {
    var e, h := [Edge(5, 5)], Graph(6, [0, 0, 0, 0, 0, 0], [0, 0, 0, 0, 0, 0, 0], [], 0);
    assert WellFormed(h);
    forall u | 0 <= u < 6
      ensures Elems(Row(h, u)) == Neighbours(e, u)
    {
      assert Row(h, u) == [];
    }
    assert IsMaxEndpoint(e, 5) by {
      assert e[0].src == 5;
    }
    assert Represents(h, e);
    RowsDetermineGraph(g, h);
  }
}
