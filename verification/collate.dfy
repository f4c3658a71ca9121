/**
 `mycollate`: one QM9 sample is densified by `make_complete_graph` and the
 result handed to `CustomGraph`, with n*(n-1) as the edge count. The
 composition theorem describes the whole graph dictionary in closed form.
 */
module Collate {
  import opened Tensors
  import opened CompleteGraph
  import opened Incidence
  import opened LexPairs

  /** The fields of `batch[0]` the collate function reads: `num_nodes`,
      `edge_index`, the node features (`pos` joined with `x`, when `x` is a key),
      `edge_attr` (when it is a key) and `y`. */
  datatype Sample = Sample(
    numNodes: nat,
    edgeIndex: seq<Edge>,
    nodeFeatures: Option<Matrix>,
    edgeAttr: Option<Matrix>,
    labels: Vec)

  /** The dictionary returned per sample. */
  datatype GraphDict = GraphDict(
    incident: seq<seq<real>>,
    incidentFeatures: Matrix,
    edgeNeigh: seq<int>,
    labels: Vec)

  /** The incidence graph `mycollate` builds from the densified sample. */
  function DenseGraph(s: Sample, pairs: seq<Edge>, dense: Matrix): CustomGraph {
    CustomGraph(pairs, s.labels, s.numNodes, |dense.rows|, s.nodeFeatures, Some(dense))
  }

  /** `mycollate([sample])`. Without `edge_attr` the complete graph is never
      built and reading `comp_edge_index` raises UnboundLocalError. */
  function CollateSample(s: Sample): (r: Result<GraphDict>)
    ensures s.edgeAttr.None? ==> r == Err(UnboundLocalError)
    ensures r.Err? ==> (r.error == UnboundLocalError <==> s.edgeAttr.None?)
    ensures r.Err? && s.edgeAttr.Some? ==> r.error == IndexError
    ensures r.Ok? ==> r.value.labels == s.labels && |r.value.incidentFeatures.rows| == 2 * |r.value.incident|
  {
    match s.edgeAttr
    case None => Err(UnboundLocalError)
    case Some(ef) =>
      match MakeCompleteGraph(s.edgeIndex, ef, s.numNodes)
      case Err(err) => Err(err)
      case Ok((pairs, dense)) =>
        match GetInhomoData(DenseGraph(s, pairs, dense))
        case Err(err) => Err(err)
        case Ok(d) => Ok(GraphDict(d.incident, d.features, d.neighbors, s.labels))
  }

  /** Node features, when present, cover every node. */
  predicate NodeFeaturesCover(s: Sample) {
    s.nodeFeatures.Some? ==> |s.nodeFeatures.value.rows| >= s.numNodes
  }

  /** The densified graph of a sample whose edge feature tensor covers its edges. */
  function Densified(s: Sample): CustomGraph
    requires s.edgeAttr.Some? && |s.edgeIndex| <= |s.edgeAttr.value.rows|
  {
    MakeCompleteGraphSpec(s.edgeIndex, s.edgeAttr.value, s.numNodes);
    var r := MakeCompleteGraph(s.edgeIndex, s.edgeAttr.value, s.numNodes).value;
    DenseGraph(s, r.0, r.1)
  }

  /** The densified graph lists the complete pairs, n*(n-1) of them, with the
      sample's nodes and node features and a dense edge feature tensor. */
  lemma DensifiedShape(s: Sample)
    requires s.edgeAttr.Some? && |s.edgeIndex| <= |s.edgeAttr.value.rows|
    ensures var g, n := Densified(s), s.numNodes;
            && g.edgeIndex == CompletePairs(n)
            && g.numEdges == n * (n - 1)
            && g.numNodes == n
            && g.nodeFeat == s.nodeFeatures
            && g.edgeFeat.Some?
  {
    MakeCompleteGraphSpec(s.edgeIndex, s.edgeAttr.value, s.numNodes);
  }

  /** The densified edge feature row for pair (i, j) is the dense row of (i, j). */
  lemma DensifiedFeatures(s: Sample, i: int, j: int)
    requires s.edgeAttr.Some? && |s.edgeIndex| <= |s.edgeAttr.value.rows|
    requires IsPair((i, j), s.numNodes)
    ensures var g, n := Densified(s), s.numNodes;
            && g.edgeFeat.Some?
            && 0 <= PairIndex(i, j, n) < |g.edgeFeat.value.rows|
            && g.edgeFeat.value.rows[PairIndex(i, j, n)] == DenseRow(s.edgeIndex, s.edgeAttr.value, (i, j))
  {
    MakeCompleteGraphSpec(s.edgeIndex, s.edgeAttr.value, s.numNodes);
  }

  /** Every pair (i, j), i < j, passes all subscripts of the loop body when node
      features cover the nodes, and its feature rows are the endpoint node
      features each followed by the pair's dense row. */
  lemma DensifiedEdgeOk(s: Sample, e: Edge)
    requires s.edgeAttr.Some? && |s.edgeIndex| <= |s.edgeAttr.value.rows| && NodeFeaturesCover(s)
    requires 0 <= e.0 < e.1 < s.numNodes
    ensures EdgeOk(Densified(s), e)
    ensures IncidenceRows(Densified(s), e).value ==
              (NodeRow(s.nodeFeatures, e.0) + DenseRow(s.edgeIndex, s.edgeAttr.value, e),
               NodeRow(s.nodeFeatures, e.1) + DenseRow(s.edgeIndex, s.edgeAttr.value, e))
  {
    var n := s.numNodes;
    var g := Densified(s);
    DensifiedShape(s);
    DensifiedFeatures(s, e.0, e.1);
    FirstIndexOfComplete(n, e.0, e.1);
    var t := PairIndex(e.0, e.1, n) as nat;
    assert g.edgeFeat.value.rows[t] == DenseRow(s.edgeIndex, s.edgeAttr.value, e);
    var v := g.edgeFeat.value.rows[t];
    if g.nodeFeat.None? {
      assert [] + v == v;
    }
  }

  /** On the densified graph the scan keeps the pairs i < j in lexicographic
      order, exactly as many as rows allocated. */
  lemma DensifiedKept(s: Sample)
    requires s.edgeAttr.Some? && |s.edgeIndex| <= |s.edgeAttr.value.rows|
    ensures Kept(Densified(s).edgeIndex) == UpperPairs(s.numNodes)
    ensures EdgeCount(Densified(s)) == |UpperPairs(s.numNodes)|
  {
    var n := s.numNodes;
    DensifiedShape(s);
    KeptOfComplete(n);
    UpperPairsLength(n);
    var m := |UpperPairs(n)|;
    assert Densified(s).numEdges == 2 * m;
    assert EdgeCount(Densified(s)) == m;
  }

  /** The scan over the densified graph raises nothing exactly when node
      features cover the nodes or there are fewer than two nodes. */
  lemma DensifiedAllOk(s: Sample)
    requires s.edgeAttr.Some? && |s.edgeIndex| <= |s.edgeAttr.value.rows|
    ensures AllOk(Densified(s), Kept(Densified(s).edgeIndex)) <==> NodeFeaturesCover(s) || s.numNodes < 2
  {
    var n := s.numNodes;
    var g := Densified(s);
    DensifiedKept(s);
    var kept := UpperPairs(n);
    UpperPairsSpec(n);
    if NodeFeaturesCover(s) {
      forall k | 0 <= k < |kept| ensures EdgeOk(g, kept[k]) {
        assert kept[k] in kept;
        DensifiedEdgeOk(s, kept[k]);
      }
    } else if n < 2 {
      assert n * (n - 1) == 0;
    } else {
      var e := (0, n - 1);
      assert e in kept;
      var k :| 0 <= k < |kept| && kept[k] == e;
      assert !EdgeOk(g, kept[k]);
    }
  }

  /** What `mycollate` returns is what `get_inhomo_data` returns on the
      densified graph, with the labels added. */
  lemma CollateSampleUnfold(s: Sample)
    requires s.edgeAttr.Some? && |s.edgeIndex| <= |s.edgeAttr.value.rows|
    ensures CollateSample(s) == match GetInhomoData(Densified(s))
              case Err(err) => Err(err)
              case Ok(d) => Ok(GraphDict(d.incident, d.features, d.neighbors, s.labels))
  {
    MakeCompleteGraphSpec(s.edgeIndex, s.edgeAttr.value, s.numNodes);
  }

  /** `mycollate` raises UnboundLocalError without edge features, IndexError
      when the edge feature tensor has fewer rows than there are sparse edges
      or node features miss a node of a graph with at least two nodes, and
      otherwise succeeds. */
  lemma CollateSampleFails(s: Sample)
    ensures s.edgeAttr.None? ==> CollateSample(s) == Err(UnboundLocalError)
    ensures s.edgeAttr.Some? ==>
              (CollateSample(s).Ok? <==>
                 |s.edgeIndex| <= |s.edgeAttr.value.rows| && (NodeFeaturesCover(s) || s.numNodes < 2))
    ensures s.edgeAttr.Some? && CollateSample(s).Err? ==> CollateSample(s).error == IndexError
  {
    if s.edgeAttr.Some? {
      MakeCompleteGraphSpec(s.edgeIndex, s.edgeAttr.value, s.numNodes);
      if |s.edgeIndex| <= |s.edgeAttr.value.rows| {
        CollateSampleUnfold(s);
        GetInhomoDataClosedForm(Densified(s));
        DensifiedAllOk(s);
      }
    }
  }

  /** The sizes of what `mycollate` returns on a sample it accepts: m = n*(n-1)/2
      incidence rows, 2m feature rows and neighbour entries, and the labels. */
  lemma CollateSampleShape(s: Sample)
    requires s.edgeAttr.Some? && CollateSample(s).Ok?
    ensures var out, m, n := CollateSample(s).value, |UpperPairs(s.numNodes)|, s.numNodes;
            && 2 * m == n * (n - 1)
            && |out.incident| == m
            && |out.incidentFeatures.rows| == 2 * m
            && |out.edgeNeigh| == 2 * m
            && out.labels == s.labels
  {
    CollateSampleFails(s);
    CollateSampleUnfold(s);
    GetInhomoDataClosedForm(Densified(s));
    DensifiedKept(s);
    UpperPairsLength(s.numNodes);
  }

  /** Row k of what `mycollate` returns, for K[k] the k-th pair (i, j),
      0 <= i < j < n, in lexicographic order. */
  lemma CollateSampleRow(s: Sample, k: int)
    requires s.edgeAttr.Some? && CollateSample(s).Ok?
    requires 0 <= k < |UpperPairs(s.numNodes)|
    ensures var out, e, n, ef := CollateSample(s).value, UpperPairs(s.numNodes)[k], s.numNodes, s.edgeAttr.value;
            && 0 <= e.0 < e.1 < n
            && k < |out.incident| && 2 * k + 1 < |out.incidentFeatures.rows| && 2 * k + 1 < |out.edgeNeigh|
            && out.incident[k] == UnitRow(n, e)
            && out.incidentFeatures.rows[2 * k] == NodeRow(s.nodeFeatures, e.0) + DenseRow(s.edgeIndex, ef, e)
            && out.incidentFeatures.rows[2 * k + 1] == NodeRow(s.nodeFeatures, e.1) + DenseRow(s.edgeIndex, ef, e)
            && out.edgeNeigh[2 * k] == (if s.nodeFeatures.Some? then e.1 else 0)
            && out.edgeNeigh[2 * k + 1] == (if s.nodeFeatures.Some? then e.0 else 0)
  {
    CollateSampleFails(s);
    CollateSampleUnfold(s);
    GetInhomoDataClosedForm(Densified(s));
    DensifiedKept(s);
    DensifiedAllOk(s);
    var kept := UpperPairs(s.numNodes);
    ExpectedRows(Densified(s), kept);
    UpperPairsSpec(s.numNodes);
    assert kept[k] in kept;
    DensifiedEdgeOk(s, kept[k]);
  }

  /** The composition theorem. On a sample with edge features that `mycollate`
      accepts, with K the pairs (i, j), 0 <= i < j < n, in lexicographic order:
      there are m = n*(n-1)/2 incidence rows, all written; row k has ones exactly
      at the endpoints of K[k] and sums to 2; feature rows 2k and 2k + 1 are the
      node feature of each endpoint followed by the dense feature of K[k] (that
      of the last sparse edge equal to K[k], or zeros); the neighbour index
      holds the other endpoint with node features present and 0 without; and
      the labels pass through. */
  lemma CollateSampleSpec(s: Sample)
    requires s.edgeAttr.Some? && CollateSample(s).Ok?
    ensures var out, kept, n, ef := CollateSample(s).value, UpperPairs(s.numNodes), s.numNodes, s.edgeAttr.value;
            && 2 * |kept| == n * (n - 1)
            && |out.incident| == |kept|
            && (forall k :: 0 <= k < |kept| ==>
                  out.incident[k] == UnitRow(n, kept[k]) && RowSum(out.incident[k]) == 2.0 &&
                  forall c :: 0 <= c < n ==> (out.incident[k][c] == 1.0 <==> c == kept[k].0 || c == kept[k].1))
            && |out.incidentFeatures.rows| == 2 * |kept|
            && (forall k :: 0 <= k < |kept| ==>
                  out.incidentFeatures.rows[2 * k] == NodeRow(s.nodeFeatures, kept[k].0) + DenseRow(s.edgeIndex, ef, kept[k]) &&
                  out.incidentFeatures.rows[2 * k + 1] == NodeRow(s.nodeFeatures, kept[k].1) + DenseRow(s.edgeIndex, ef, kept[k]))
            && |out.edgeNeigh| == 2 * |kept|
            && (forall k :: 0 <= k < |kept| ==>
                  out.edgeNeigh[2 * k] == (if s.nodeFeatures.Some? then kept[k].1 else 0) &&
                  out.edgeNeigh[2 * k + 1] == (if s.nodeFeatures.Some? then kept[k].0 else 0))
            && out.labels == s.labels
  {
    var n := s.numNodes;
    CollateSampleShape(s);
    var kept := UpperPairs(n);
    var out := CollateSample(s).value;
    forall k | 0 <= k < |kept|
      ensures out.incident[k] == UnitRow(n, kept[k]) && RowSum(out.incident[k]) == 2.0
      ensures forall c :: 0 <= c < n ==> (out.incident[k][c] == 1.0 <==> c == kept[k].0 || c == kept[k].1)
      ensures out.incidentFeatures.rows[2 * k] == NodeRow(s.nodeFeatures, kept[k].0) + DenseRow(s.edgeIndex, s.edgeAttr.value, kept[k])
      ensures out.incidentFeatures.rows[2 * k + 1] == NodeRow(s.nodeFeatures, kept[k].1) + DenseRow(s.edgeIndex, s.edgeAttr.value, kept[k])
      ensures out.edgeNeigh[2 * k] == (if s.nodeFeatures.Some? then kept[k].1 else 0)
      ensures out.edgeNeigh[2 * k + 1] == (if s.nodeFeatures.Some? then kept[k].0 else 0)
    {
      CollateSampleRow(s, k);
      UnitRowSpec(n, kept[k]);
    }
  }

  /** With node features present the neighbour index completes each incidence
      row: the ones of row k sit exactly at the endpoint that feature row 2k
      describes and at `edge_neigh[2k]`, and likewise for row 2k + 1. */
  lemma CollateSampleNeighbors(s: Sample, k: int)
    requires s.edgeAttr.Some? && s.nodeFeatures.Some? && CollateSample(s).Ok?
    requires 0 <= k < |UpperPairs(s.numNodes)|
    ensures var out, e := CollateSample(s).value, UpperPairs(s.numNodes)[k];
            && k < |out.incident| && 2 * k + 1 < |out.edgeNeigh|
            && forall c :: 0 <= c < s.numNodes ==>
                 (out.incident[k][c] == 1.0 <==> c == e.0 || c == out.edgeNeigh[2 * k]) &&
                 (out.incident[k][c] == 1.0 <==> c == e.1 || c == out.edgeNeigh[2 * k + 1])
  {
    CollateSampleRow(s, k);
    UnitRowSpec(s.numNodes, UpperPairs(s.numNodes)[k]);
  }

  /** The incidence feature tensor has D_n + D_e columns (D_e without node
      features), and is rectangular when the input tensors are. */
  lemma CollateSampleWidth(s: Sample)
    requires s.edgeAttr.Some? && CollateSample(s).Ok?
    ensures var out, ef := CollateSample(s).value, s.edgeAttr.value;
            && out.incidentFeatures.width == (if s.nodeFeatures.Some? then s.nodeFeatures.value.width else 0) + ef.width
            && (WellFormed(ef) && (s.nodeFeatures.Some? ==> WellFormed(s.nodeFeatures.value)) ==>
                  WellFormed(out.incidentFeatures))
  {
    CollateSampleFails(s);
    MakeCompleteGraphSpec(s.edgeIndex, s.edgeAttr.value, s.numNodes);
    CollateSampleUnfold(s);
    GetInhomoDataClosedForm(Densified(s));
    DensifiedAllOk(s);
    ExpectedRows(Densified(s), Kept(Densified(s).edgeIndex));
  }
}
