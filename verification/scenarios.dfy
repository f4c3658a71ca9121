/**
 Small worked samples: what the code returns on them, end to end.

 Each sample is a parameter pinned to its literal value by a `requires`,
 rather than a literal written into the calls: on literal arguments the
 verifier unfolds the recursive definitions eagerly, and the proofs become
 much more expensive.
 */
module Scenarios {
  import opened Tensors
  import opened CompleteGraph
  import opened Incidence
  import opened LexPairs
  import opened Collate

  /** Two nodes bonded both ways with feature [5.0] and no node features: one
      incidence row [1, 1], both feature rows [5.0], and a neighbour index left
      at zero because only the both-features branch writes it. */
  lemma SingleBondSample(s: Sample)
    requires s.numNodes == 2 && s.edgeIndex == [(0, 1), (1, 0)]
    requires s.nodeFeatures.None? && s.edgeAttr == Some(Matrix([[5.0], [5.0]], 1))
    ensures CollateSample(s) == Ok(GraphDict([[1.0, 1.0]], Matrix([[5.0], [5.0]], 1), [0, 0], s.labels))
  {
    CollateSampleFails(s);
    UpperPairsTwo();
    CollateSampleShape(s);
    CollateSampleRow(s, 0);
    CollateSampleWidth(s);
    var out := CollateSample(s).value;
    assert UnitRow(2, (0, 1)) == [1.0, 1.0];
    assert DenseRow(s.edgeIndex, s.edgeAttr.value, (0, 1)) == [5.0];
    assert out.incident == [[1.0, 1.0]];
    assert NodeRow(s.nodeFeatures, 0) == [] && NodeRow(s.nodeFeatures, 1) == [];
    assert out.incidentFeatures.rows[0] == [5.0] && out.incidentFeatures.rows[1] == [5.0];
    assert out.incidentFeatures.rows == [[5.0], [5.0]];
    assert out.edgeNeigh == [0, 0];
  }

  /** The only pair of a two-node graph. */
  lemma UpperPairsTwo()
    ensures UpperPairs(2) == [(0, 1)]
  {
  }

  /** Three nodes with only the bond {0, 1} (feature [2.0]): the complete graph
      lists the six ordered pairs row by row, and every pair that is not a bond
      carries the zero vector. */
  lemma ZeroFillSample(edges: seq<Edge>, feats: Matrix, n: nat)
    requires edges == [(0, 1), (1, 0)] && feats == Matrix([[2.0], [2.0]], 1) && n == 3
    ensures MakeCompleteGraph(edges, feats, n) ==
              Ok(([(0, 1), (0, 2), (1, 0), (1, 2), (2, 0), (2, 1)],
                  Matrix([[2.0], [0.0], [2.0], [0.0], [0.0], [0.0]], 1)))
  {
    MakeCompleteGraphShape(edges, feats, n);
    var dense := MakeCompleteGraph(edges, feats, n).value.1;
    ThreeNodePairs(n);
    assert Zeros(1) == [0.0];
    assert dense.rows[0] == [2.0] by {
      MakeCompleteGraphRow(edges, feats, n, 0, 1);
      assert PairIndex(0, 1, n) == 0 && edges[1] != (0, 1);
    }
    assert dense.rows[1] == [0.0] by {
      MakeCompleteGraphRow(edges, feats, n, 0, 2);
      assert PairIndex(0, 2, n) == 1 && (0, 2) !in edges;
    }
    assert dense.rows[2] == [2.0] by {
      MakeCompleteGraphRow(edges, feats, n, 1, 0);
      assert PairIndex(1, 0, n) == 2 && edges[1] == (1, 0);
    }
    assert dense.rows[3] == [0.0] by {
      MakeCompleteGraphRow(edges, feats, n, 1, 2);
      assert PairIndex(1, 2, n) == 3 && (1, 2) !in edges;
    }
    assert dense.rows[4] == [0.0] by {
      MakeCompleteGraphRow(edges, feats, n, 2, 0);
      assert PairIndex(2, 0, n) == 4 && (2, 0) !in edges;
    }
    assert dense.rows[5] == [0.0] by {
      MakeCompleteGraphRow(edges, feats, n, 2, 1);
      assert PairIndex(2, 1, n) == 5 && (2, 1) !in edges;
    }
    assert dense.rows == [[2.0], [0.0], [2.0], [0.0], [0.0], [0.0]];
  }

  /** The six ordered pairs of a three-node graph, row by row. */
  lemma ThreeNodePairs(n: nat)
    requires n == 3
    ensures CompletePairs(n) == [(0, 1), (0, 2), (1, 0), (1, 2), (2, 0), (2, 1)]
  {
    CompletePairsSpec(n);
    var pairs := CompletePairs(n);
    assert pairs[PairIndex(0, 1, n)] == (0, 1) && pairs[PairIndex(0, 2, n)] == (0, 2);
    assert pairs[PairIndex(1, 0, n)] == (1, 0) && pairs[PairIndex(1, 2, n)] == (1, 2);
    assert pairs[PairIndex(2, 0, n)] == (2, 0) && pairs[PairIndex(2, 1, n)] == (2, 1);
  }

  /** On the path 0 - 1 - 2 listed in both directions the scan keeps (0, 1) and (1, 2). */
  lemma PathGraphKept(edges: seq<Edge>)
    requires edges == [(0, 1), (1, 0), (1, 2), (2, 1)]
    ensures Kept(edges) == [(0, 1), (1, 2)]
  {
    var e0, e1, e2, e3 := edges[0], edges[1], edges[2], edges[3];
    var s0: seq<Edge> := [];
    var s1 := s0 + [e0];
    var s2 := s1 + [e1];
    var s3 := s2 + [e2];
    assert edges == s3 + [e3];
    KeptSnoc(s0, e0);
    KeptSnoc(s1, e1);
    KeptSnoc(s2, e2);
    KeptSnoc(s3, e3);
    assert Kept(s1) == [e0];
    assert Kept(s2) == [e0];
    assert Kept(s3) == [e0, e2];
  }

  /** The sparse path graph 0 - 1 - 2 handed straight to `CustomGraph` with no
      features: two incidence rows {0, 1} and {1, 2}, four feature rows of the
      constant 1, and an all-zero neighbour index. */
  lemma PathGraphIncidence(g: CustomGraph)
    requires g.edgeIndex == [(0, 1), (1, 0), (1, 2), (2, 1)] && g.numNodes == 3 && g.numEdges == 4
    requires g.nodeFeat.None? && g.edgeFeat.None?
    ensures GetInhomoData(g) ==
              Ok(InhomoData([[1.0, 1.0, 0.0], [0.0, 1.0, 1.0]], Matrix([[1.0], [1.0], [1.0], [1.0]], 1), [0, 0, 0, 0]))
  {
    PathGraphKept(g.edgeIndex);
    var kept: seq<Edge> := [(0, 1), (1, 2)];
    assert IncidenceRows(g, (0, 1)) == Ok(([1.0], [1.0]));
    assert IncidenceRows(g, (1, 2)) == Ok(([1.0], [1.0]));
    assert EdgeOk(g, kept[0]) && EdgeOk(g, kept[1]);
    assert AllOk(g, kept);
    GetInhomoDataClosedForm(g);
    var st := ExpectedState(g, kept);
    ExpectedIncident(g, kept);
    ExpectedPair(g, kept, 0);
    ExpectedPair(g, kept, 1);
    assert UnitRow(3, (0, 1)) == [1.0, 1.0, 0.0];
    assert UnitRow(3, (1, 2)) == [0.0, 1.0, 1.0];
    assert st.incident == [[1.0, 1.0, 0.0], [0.0, 1.0, 1.0]];
    assert st.features == [[1.0], [1.0], [1.0], [1.0]];
    assert st.neighbors == [0, 0, 0, 0];
  }
}
