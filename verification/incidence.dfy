/**
 `CustomGraph` and its `get_inhomo_data`: turns a directed edge list into an
 edge-by-node incidence matrix, two feature rows per kept edge, and a
 neighbour index.

 The loop is modelled as written, as a state (the seen set, the three output
 tensors and the two counters) advanced one edge at a time; `ExpectedState`
 gives the state after a prefix in closed form from the list of kept edges,
 and `RunPrefixSpec` proves the two agree.
 */
module Incidence {
  import opened Tensors

  /** `CustomGraph(edge_index, label, num_nodes, num_edges, node_feat, edge_feat)`. */
  datatype CustomGraph = CustomGraph(
    edgeIndex: seq<Edge>,
    labels: Vec,
    numNodes: nat,
    numEdges: nat,
    nodeFeat: Option<Matrix>,
    edgeFeat: Option<Matrix>)

  /** What `get_inhomo_data` returns: `incident`, `incident_features`, `edge_neighbors`. */
  datatype InhomoData = InhomoData(incident: seq<seq<real>>, features: Matrix, neighbors: seq<int>)

  /** Both feature tensors, where present, are rectangular. */
  predicate InputsWellFormed(g: CustomGraph) {
    && (g.nodeFeat.Some? ==> WellFormed(g.nodeFeat.value))
    && (g.edgeFeat.Some? ==> WellFormed(g.edgeFeat.value))
  }

  /** `m = int(num_edges / 2)`: the number of incidence rows allocated. */
  function EdgeCount(g: CustomGraph): nat {
    g.numEdges / 2
  }

  /** Column count of `incident_features`: 1, D_e, D_n or D_n + D_e, by which
      of the node and edge features are present. */
  function FeatureWidth(g: CustomGraph): nat {
    match (g.nodeFeat, g.edgeFeat)
    case (None, None) => 1
    case (None, Some(ef)) => ef.width
    case (Some(nf), None) => nf.width
    case (Some(nf), Some(ef)) => nf.width + ef.width
  }

  /** The only branch that writes `edge_neighbors`. */
  predicate BothFeatures(g: CustomGraph) {
    g.nodeFeat.Some? && g.edgeFeat.Some?
  }

  /** `np.where((ei[0] == e.0) & (ei[1] == e.1))[0]` followed by `[0]`: the
      first position of e in `edges`; None stands for the empty array, whose
      `[0]` raises. */
  function FirstIndexOf(edges: seq<Edge>, e: Edge): (r: Option<nat>)
    ensures r.None? <==> e !in edges
    ensures r.Some? ==> r.value < |edges| && edges[r.value] == e &&
                        forall t :: 0 <= t < r.value ==> edges[t] != e
  {
    if |edges| == 0 then None
    else if edges[0] == e then Some(0)
    else match FirstIndexOf(edges[1..], e)
      case None => None
      case Some(t) => Some(t + 1)
  }

  /** The two `incident_features` rows the loop writes for a kept edge e = (s, d):
      the constant 1 twice; or the feature of the first edge equal to e twice;
      or the node features of s and of d; or each node feature followed by that
      edge feature. Any subscript out of range raises IndexError. */
  function IncidenceRows(g: CustomGraph, e: Edge): (r: Result<(Vec, Vec)>)
    ensures r.Err? ==> r.error == IndexError
    ensures r.Ok? && InputsWellFormed(g) ==>
              |r.value.0| == FeatureWidth(g) && |r.value.1| == FeatureWidth(g)
  {
    match (g.nodeFeat, g.edgeFeat)
    case (None, None) => Ok(([1.0], [1.0]))
    case (None, Some(ef)) =>
      (match FirstIndexOf(g.edgeIndex, e)
       case Some(t) =>
         if t < |ef.rows| then Ok((ef.rows[t], ef.rows[t])) else Err(IndexError)
       case None => Err(IndexError))
    case (Some(nf), None) =>
      (match (PyIndex(e.0, |nf.rows|), PyIndex(e.1, |nf.rows|))
       case (Some(s), Some(d)) => Ok((nf.rows[s], nf.rows[d]))
       case _ => Err(IndexError))
    case (Some(nf), Some(ef)) =>
      match (FirstIndexOf(g.edgeIndex, e), PyIndex(e.0, |nf.rows|), PyIndex(e.1, |nf.rows|))
      case (Some(t), Some(s), Some(d)) =>
        if t < |ef.rows| then Ok((nf.rows[s] + ef.rows[t], nf.rows[d] + ef.rows[t]))
        else Err(IndexError)
      case _ => Err(IndexError)
  }

  /** The node-feature part of an incidence row for an in-range endpoint v:
      empty without node features. The empty fallback for an out-of-range v is
      not source behaviour (the code raises IndexError there); it is only read
      where node features cover the nodes. */
  function NodeRow(nodeFeat: Option<Matrix>, v: int): Vec {
    match nodeFeat
    case None => []
    case Some(nf) => if 0 <= v < |nf.rows| then nf.rows[v] else []
  }

  // ---------------------------------------------------------------------------
  // The loop as written
  // ---------------------------------------------------------------------------

  /** The loop's variables: `edge_pairs`, `incident`, `incident_features`,
      `edge_neighbors`, `counter` and `edge_counter`. */
  datatype ScanState = ScanState(
    seen: set<Edge>,
    incident: seq<seq<real>>,
    features: seq<Vec>,
    neighbors: seq<int>,
    counter: nat,
    edgeCounter: nat)

  /** The tensor shapes fixed before the loop, and `counter == 2 * edge_counter`. */
  predicate Shaped(g: CustomGraph, st: ScanState) {
    && |st.incident| == EdgeCount(g)
    && (forall e :: 0 <= e < |st.incident| ==> |st.incident[e]| == g.numNodes)
    && |st.features| == 2 * EdgeCount(g)
    && |st.neighbors| == 2 * EdgeCount(g)
    && st.edgeCounter <= EdgeCount(g)
    && st.counter == 2 * st.edgeCounter
  }

  /** The state before the loop: an empty seen set and all-zero tensors. */
  function InitState(g: CustomGraph): (st: ScanState)
    ensures Shaped(g, st)
    ensures st.seen == {} && st.counter == 0 && st.edgeCounter == 0
    ensures forall k :: 0 <= k < |st.incident| ==> st.incident[k] == Zeros(g.numNodes)
    ensures forall r :: 0 <= r < |st.features| ==> st.features[r] == Zeros(FeatureWidth(g))
    ensures forall r :: 0 <= r < |st.neighbors| ==> st.neighbors[r] == 0
  {
    ScanState(
      {},
      seq(EdgeCount(g), _ => Zeros(g.numNodes)),
      seq(2 * EdgeCount(g), _ => Zeros(FeatureWidth(g))),
      seq(2 * EdgeCount(g), _ => 0),
      0, 0)
  }

  /** One iteration of the loop on edge e = (s, d). An edge whose reverse has
      been seen is skipped; otherwise it is added to the seen set, row
      `edge_counter` of `incident` gets a 1 in columns s and d, rows `counter`
      and `counter + 1` of `incident_features` are written, and in the
      both-features branch `edge_neighbors` gets d then s. */
  function Step(g: CustomGraph, st: ScanState, e: Edge): (r: Result<ScanState>)
    requires Shaped(g, st)
    ensures r.Err? ==> r.error == IndexError
    ensures r.Ok? ==> Shaped(g, r.value)
    ensures Reverse(e) in st.seen ==> r == Ok(st)
    ensures Reverse(e) !in st.seen && r.Ok? ==>
              r.value.seen == st.seen + {e} && r.value.edgeCounter == st.edgeCounter + 1
  {
    if Reverse(e) in st.seen then Ok(st)
    else
      var ec := st.edgeCounter;
      var s := PyIndex(e.0, g.numNodes);
      var d := PyIndex(e.1, g.numNodes);
      if ec >= EdgeCount(g) || s.None? || d.None? then Err(IndexError)
      else
        match IncidenceRows(g, e)
        case Err(err) => Err(err)
        case Ok((r0, r1)) =>
          var c := st.counter;
          Ok(ScanState(
            st.seen + {e},
            st.incident[ec := st.incident[ec][s.value := 1.0][d.value := 1.0]],
            st.features[c := r0][c + 1 := r1],
            if BothFeatures(g) then st.neighbors[c := e.1][c + 1 := e.0] else st.neighbors,
            c + 2,
            ec + 1))
  }

  /** The loop after its first `count` iterations; an exception ends it. */
  function RunPrefix(g: CustomGraph, count: nat): (r: Result<ScanState>)
    requires count <= |g.edgeIndex|
    ensures r.Ok? ==> Shaped(g, r.value)
    ensures r.Err? ==> r.error == IndexError
  {
    if count == 0 then Ok(InitState(g))
    else
      match RunPrefix(g, count - 1)
      case Err(err) => Err(err)
      case Ok(st) => Step(g, st, g.edgeIndex[count - 1])
  }

  /** `get_inhomo_data()`. */
  function GetInhomoData(g: CustomGraph): (r: Result<InhomoData>)
    ensures r.Err? ==> r.error == IndexError
    ensures r.Ok? ==>
              && |r.value.incident| == EdgeCount(g)
              && |r.value.features.rows| == 2 * EdgeCount(g)
              && r.value.features.width == FeatureWidth(g)
              && |r.value.neighbors| == 2 * EdgeCount(g)
  {
    match RunPrefix(g, |g.edgeIndex|)
    case Err(err) => Err(err)
    case Ok(st) => Ok(InhomoData(st.incident, Matrix(st.features, FeatureWidth(g)), st.neighbors))
  }

  // ---------------------------------------------------------------------------
  // Closed form
  // ---------------------------------------------------------------------------

  /** The edges the scan keeps, in order: an edge is kept unless its reverse
      was kept before it. */
  function Kept(edges: seq<Edge>): (r: seq<Edge>)
    ensures |r| <= |edges|
    ensures forall x :: x in r ==> x in edges
  {
    if |edges| == 0 then []
    else
      var prev := Kept(edges[..|edges| - 1]);
      var e := edges[|edges| - 1];
      if Reverse(e) in prev then prev else prev + [e]
  }

  /** One more input edge: kept unless its reverse already was. */
  lemma KeptSnoc(edges: seq<Edge>, e: Edge)
    ensures Kept(edges + [e]) == if Reverse(e) in Kept(edges) then Kept(edges) else Kept(edges) + [e]
  {
    assert (edges + [e])[..|edges|] == edges;
  }

  /** An incidence row with ones in the (resolved) columns of e's endpoints. */
  function UnitRow(n: nat, e: Edge): seq<real> {
    seq(n, c => if Hits(PyIndex(e.0, n), c) || Hits(PyIndex(e.1, n), c) then 1.0 else 0.0)
  }

  /** An incidence row has n entries, each 0 or 1, and column c holds a 1
      exactly when an endpoint subscript is c or c - n, i.e. resolves to c;
      an endpoint outside [-n, n) marks no column. */
  lemma UnitRowColumns(n: nat, e: Edge)
    ensures |UnitRow(n, e)| == n
    ensures forall c :: 0 <= c < n ==> UnitRow(n, e)[c] == 1.0 || UnitRow(n, e)[c] == 0.0
    ensures forall c :: 0 <= c < n ==>
              (UnitRow(n, e)[c] == 1.0 <==> c == e.0 || c == e.1 || c == e.0 + n || c == e.1 + n)
  {
  }

  /** Feature row 2k (`first`) or 2k + 1 of kept edge e. The zero fallback
      when `IncidenceRows` fails is not source behaviour (the code raises
      IndexError there); it is only read under `AllOk`, where that never
      happens. */
  function FeatureRow(g: CustomGraph, e: Edge, first: bool): Vec {
    match IncidenceRows(g, e)
    case Ok((r0, r1)) => if first then r0 else r1
    case Err(_) => Zeros(FeatureWidth(g))
  }

  /** Neighbour entry 2k (`first`) or 2k + 1 of kept edge e = (s, d): d then s
      in the both-features branch, and the initial 0 otherwise. */
  function NeighborEntry(g: CustomGraph, e: Edge, first: bool): int {
    if BothFeatures(g) then (if first then e.1 else e.0) else 0
  }

  /** Every subscript the loop body takes for kept edge e is in range. */
  predicate EdgeOk(g: CustomGraph, e: Edge) {
    && PyIndex(e.0, g.numNodes).Some?
    && PyIndex(e.1, g.numNodes).Some?
    && IncidenceRows(g, e).Ok?
  }

  /** No iteration over these kept edges raises. */
  predicate AllOk(g: CustomGraph, kept: seq<Edge>) {
    |kept| <= EdgeCount(g) && forall k :: 0 <= k < |kept| ==> EdgeOk(g, kept[k])
  }

  /** The loop state once exactly `kept` have been kept: their rows written in
      order, every later row still zero. */
  function ExpectedState(g: CustomGraph, kept: seq<Edge>): (st: ScanState)
    requires |kept| <= EdgeCount(g)
    ensures Shaped(g, st)
  {
    var m := EdgeCount(g);
    ScanState(
      set x | x in kept,
      seq(m, k requires 0 <= k < m =>
        if k < |kept| then UnitRow(g.numNodes, kept[k]) else Zeros(g.numNodes)),
      seq(2 * m, r requires 0 <= r < 2 * m =>
        if r < 2 * |kept| then FeatureRow(g, kept[r / 2], r % 2 == 0) else Zeros(FeatureWidth(g))),
      seq(2 * m, r requires 0 <= r < 2 * m =>
        if r < 2 * |kept| then NeighborEntry(g, kept[r / 2], r % 2 == 0) else 0),
      2 * |kept|,
      |kept|)
  }

  /** Setting the endpoint columns of a zero row gives the unit row. */
  lemma UnitRowFromZeros(n: nat, e: Edge)
    requires PyIndex(e.0, n).Some? && PyIndex(e.1, n).Some?
    ensures Zeros(n)[PyIndex(e.0, n).value := 1.0][PyIndex(e.1, n).value := 1.0] == UnitRow(n, e)
  {
  }

  /** Appending a kept edge writes its unit row into the next incidence row. */
  lemma AppendIncident(g: CustomGraph, kept: seq<Edge>, e: Edge)
    requires |kept| < EdgeCount(g)
    ensures ExpectedState(g, kept).incident[|kept| := UnitRow(g.numNodes, e)] == ExpectedState(g, kept + [e]).incident
  {
    var a, b := ExpectedState(g, kept).incident[|kept| := UnitRow(g.numNodes, e)], ExpectedState(g, kept + [e]).incident;
    forall i | 0 <= i < EdgeCount(g) ensures a[i] == b[i] {
      if i < |kept| {
        assert (kept + [e])[i] == kept[i];
      }
    }
  }

  /** Appending a kept edge writes its two feature rows at 2k and 2k + 1. */
  lemma AppendFeatures(g: CustomGraph, kept: seq<Edge>, e: Edge)
    requires |kept| < EdgeCount(g) && IncidenceRows(g, e).Ok?
    ensures var k, rows := |kept|, IncidenceRows(g, e).value;
            ExpectedState(g, kept).features[2 * k := rows.0][2 * k + 1 := rows.1] == ExpectedState(g, kept + [e]).features
  {
    var k, rows := |kept|, IncidenceRows(g, e).value;
    var a, b := ExpectedState(g, kept).features[2 * k := rows.0][2 * k + 1 := rows.1], ExpectedState(g, kept + [e]).features;
    forall i | 0 <= i < 2 * EdgeCount(g) ensures a[i] == b[i] {
      if i < 2 * k {
        assert (kept + [e])[i / 2] == kept[i / 2];
      } else if i == 2 * k {
        assert i / 2 == k && i % 2 == 0;
      } else if i == 2 * k + 1 {
        assert i / 2 == k && i % 2 == 1;
      }
    }
  }

  /** Appending a kept edge writes d, s at 2k and 2k + 1 in the both-features
      branch and leaves the neighbour index as it is otherwise. */
  lemma AppendNeighbors(g: CustomGraph, kept: seq<Edge>, e: Edge)
    requires |kept| < EdgeCount(g)
    ensures var k, nb := |kept|, ExpectedState(g, kept).neighbors;
            (if BothFeatures(g) then nb[2 * k := e.1][2 * k + 1 := e.0] else nb) == ExpectedState(g, kept + [e]).neighbors
  {
    var k, nb := |kept|, ExpectedState(g, kept).neighbors;
    var a, b := (if BothFeatures(g) then nb[2 * k := e.1][2 * k + 1 := e.0] else nb), ExpectedState(g, kept + [e]).neighbors;
    forall i | 0 <= i < 2 * EdgeCount(g) ensures a[i] == b[i] {
      if i < 2 * k {
        assert (kept + [e])[i / 2] == kept[i / 2];
      } else if i == 2 * k {
        assert i / 2 == k && i % 2 == 0;
      } else if i == 2 * k + 1 {
        assert i / 2 == k && i % 2 == 1;
      }
    }
  }

  /** One iteration that keeps e from any shaped state: the writes of the
      loop body, spelled out. */
  lemma StepKeeps(g: CustomGraph, st: ScanState, e: Edge)
    requires Shaped(g, st) && Reverse(e) !in st.seen && st.edgeCounter < EdgeCount(g) && EdgeOk(g, e)
    ensures var k, c, rows := st.edgeCounter, st.counter, IncidenceRows(g, e).value;
            var s, d := PyIndex(e.0, g.numNodes).value, PyIndex(e.1, g.numNodes).value;
            Step(g, st, e) == Ok(ScanState(
              st.seen + {e},
              st.incident[k := st.incident[k][s := 1.0][d := 1.0]],
              st.features[c := rows.0][c + 1 := rows.1],
              if BothFeatures(g) then st.neighbors[c := e.1][c + 1 := e.0] else st.neighbors,
              c + 2,
              k + 1))
  {
  }

  /** A kept edge writes its unit row into the next incidence row. */
  lemma StepAppendsIncident(g: CustomGraph, kept: seq<Edge>, e: Edge)
    requires |kept| < EdgeCount(g) && Reverse(e) !in kept && EdgeOk(g, e)
    ensures Step(g, ExpectedState(g, kept), e).Ok?
    ensures Step(g, ExpectedState(g, kept), e).value.incident == ExpectedState(g, kept + [e]).incident
  {
    var st := ExpectedState(g, kept);
    assert Reverse(e) !in st.seen;
    StepKeeps(g, st, e);
    assert st.incident[|kept|] == Zeros(g.numNodes);
    UnitRowFromZeros(g.numNodes, e);
    AppendIncident(g, kept, e);
  }

  /** A kept edge writes its two feature rows at 2k and 2k + 1. */
  lemma StepAppendsFeatures(g: CustomGraph, kept: seq<Edge>, e: Edge)
    requires |kept| < EdgeCount(g) && Reverse(e) !in kept && EdgeOk(g, e)
    ensures Step(g, ExpectedState(g, kept), e).Ok?
    ensures Step(g, ExpectedState(g, kept), e).value.features == ExpectedState(g, kept + [e]).features
  {
    var st := ExpectedState(g, kept);
    assert Reverse(e) !in st.seen;
    StepKeeps(g, st, e);
    AppendFeatures(g, kept, e);
  }

  /** A kept edge writes its neighbour entries (in the both-features branch). */
  lemma StepAppendsNeighbors(g: CustomGraph, kept: seq<Edge>, e: Edge)
    requires |kept| < EdgeCount(g) && Reverse(e) !in kept && EdgeOk(g, e)
    ensures Step(g, ExpectedState(g, kept), e).Ok?
    ensures Step(g, ExpectedState(g, kept), e).value.neighbors == ExpectedState(g, kept + [e]).neighbors
  {
    var st := ExpectedState(g, kept);
    assert Reverse(e) !in st.seen;
    StepKeeps(g, st, e);
    AppendNeighbors(g, kept, e);
  }

  /** A kept edge with room and good subscripts advances the closed form. */
  lemma StepAppends(g: CustomGraph, kept: seq<Edge>, e: Edge)
    requires |kept| < EdgeCount(g) && Reverse(e) !in kept && EdgeOk(g, e)
    ensures Step(g, ExpectedState(g, kept), e) == Ok(ExpectedState(g, kept + [e]))
  {
    var st, next := ExpectedState(g, kept), ExpectedState(g, kept + [e]);
    StepAppendsIncident(g, kept, e);
    StepAppendsFeatures(g, kept, e);
    StepAppendsNeighbors(g, kept, e);
    var r := Step(g, st, e).value;
    assert r.seen == st.seen + {e} && r.edgeCounter == |kept| + 1;
    assert r.seen == next.seen;
  }

  /** A kept edge with no row left or a bad subscript raises IndexError. */
  lemma StepOverflows(g: CustomGraph, kept: seq<Edge>, e: Edge)
    requires |kept| <= EdgeCount(g) && Reverse(e) !in kept && !(|kept| < EdgeCount(g) && EdgeOk(g, e))
    ensures Step(g, ExpectedState(g, kept), e) == Err(IndexError)
  {
    assert Reverse(e) !in ExpectedState(g, kept).seen;
  }

  /** One iteration from the closed-form state: a skip leaves it as it is, a
      kept edge advances it to the closed form with e appended, and a kept
      edge with no room left or a bad subscript raises IndexError. */
  lemma StepFromExpected(g: CustomGraph, kept: seq<Edge>, e: Edge)
    requires |kept| <= EdgeCount(g)
    ensures Step(g, ExpectedState(g, kept), e) ==
              if Reverse(e) in kept then Ok(ExpectedState(g, kept))
              else if |kept| < EdgeCount(g) && EdgeOk(g, e) then Ok(ExpectedState(g, kept + [e]))
              else Err(IndexError)
  {
    if Reverse(e) in kept {
      assert Reverse(e) in ExpectedState(g, kept).seen;
    } else if |kept| < EdgeCount(g) && EdgeOk(g, e) {
      StepAppends(g, kept, e);
    } else {
      StepOverflows(g, kept, e);
    }
  }

  /** The state before the loop is the closed form of no kept edges. */
  lemma InitIsExpected(g: CustomGraph)
    ensures ExpectedState(g, []) == InitState(g)
  {
    var st, init := ExpectedState(g, []), InitState(g);
    assert st.seen == init.seen;
    assert st.incident == init.incident;
    assert st.features == init.features;
    assert st.neighbors == init.neighbors;
  }

  /** One more kept edge keeps the loop clear of errors exactly when there is
      a row left for it and its subscripts are in range. */
  lemma AllOkSnoc(g: CustomGraph, kept: seq<Edge>, e: Edge)
    ensures AllOk(g, kept + [e]) <==> AllOk(g, kept) && |kept| < EdgeCount(g) && EdgeOk(g, e)
  {
    var cur := kept + [e];
    assert cur[|kept|] == e;
    if AllOk(g, cur) {
      forall k | 0 <= k < |kept| ensures EdgeOk(g, kept[k]) {
        assert cur[k] == kept[k];
      }
    }
  }

  /** After `count` iterations the loop has raised exactly when some edge kept
      so far had no room or a bad subscript, and otherwise stands in the
      closed-form state of the edges kept so far. */
  lemma {:induction false} RunPrefixSpec(g: CustomGraph, count: nat)
    requires count <= |g.edgeIndex|
    ensures RunPrefix(g, count) ==
              if AllOk(g, Kept(g.edgeIndex[..count])) then Ok(ExpectedState(g, Kept(g.edgeIndex[..count])))
              else Err(IndexError)
  {
    if count > 0 {
      RunPrefixSpec(g, count - 1);
      var prefix, e := g.edgeIndex[..count - 1], g.edgeIndex[count - 1];
      assert g.edgeIndex[..count] == prefix + [e];
      KeptSnoc(prefix, e);
      var prev, cur := Kept(prefix), Kept(g.edgeIndex[..count]);
      AllOkSnoc(g, prev, e);
      if AllOk(g, prev) {
        var st := ExpectedState(g, prev);
        assert RunPrefix(g, count - 1) == Ok(st);
        assert RunPrefix(g, count) == Step(g, st, e);
        StepFromExpected(g, prev, e);
        if Reverse(e) in prev {
          assert cur == prev;
        } else {
          assert cur == prev + [e];
        }
      } else {
        assert RunPrefix(g, count - 1) == Err(IndexError);
        assert !AllOk(g, cur);
      }
    } else {
      assert g.edgeIndex[..0] == [];
      InitIsExpected(g);
    }
  }

  /** `get_inhomo_data` returns the closed-form state of the kept edges when
      no kept edge overflows or has a bad subscript, and raises IndexError
      otherwise. */
  lemma GetInhomoDataClosedForm(g: CustomGraph)
    ensures var kept := Kept(g.edgeIndex);
            GetInhomoData(g) ==
              if AllOk(g, kept) then
                var st := ExpectedState(g, kept);
                Ok(InhomoData(st.incident, Matrix(st.features, FeatureWidth(g)), st.neighbors))
              else Err(IndexError)
  {
    RunPrefixSpec(g, |g.edgeIndex|);
    assert g.edgeIndex[..|g.edgeIndex|] == g.edgeIndex;
  }

  /** `get_inhomo_data` raises IndexError exactly when more edges are kept
      than the m = num_edges div 2 rows allocated, or some kept edge has a
      subscript out of range. Otherwise row k < m of `incident` has ones at the
      endpoints of the k-th kept edge and zeros elsewhere (all zeros past the
      kept edges); feature rows 2k and 2k + 1 are the two rows composed for the
      k-th kept edge, later rows stay zero; and `edge_neighbors` holds d, s for
      the k-th kept edge (s, d) in the both-features branch and 0 everywhere
      in the other three. */
  lemma GetInhomoDataSpec(g: CustomGraph)
    ensures GetInhomoData(g).Ok? <==> AllOk(g, Kept(g.edgeIndex))
    ensures GetInhomoData(g).Err? ==> GetInhomoData(g).error == IndexError
    ensures GetInhomoData(g).Ok? ==>
              var kept, m, out := Kept(g.edgeIndex), EdgeCount(g), GetInhomoData(g).value;
              && |out.incident| == m
              && (forall k :: 0 <= k < m ==>
                    out.incident[k] == if k < |kept| then UnitRow(g.numNodes, kept[k]) else Zeros(g.numNodes))
              && |out.features.rows| == 2 * m
              && out.features.width == FeatureWidth(g)
              && (InputsWellFormed(g) ==> WellFormed(out.features))
              && (forall k :: 0 <= k < |kept| ==>
                    out.features.rows[2 * k] == IncidenceRows(g, kept[k]).value.0 &&
                    out.features.rows[2 * k + 1] == IncidenceRows(g, kept[k]).value.1)
              && (forall r :: 2 * |kept| <= r < 2 * m ==> out.features.rows[r] == Zeros(FeatureWidth(g)))
              && |out.neighbors| == 2 * m
              && (forall k :: 0 <= k < |kept| ==>
                    out.neighbors[2 * k] == (if BothFeatures(g) then kept[k].1 else 0) &&
                    out.neighbors[2 * k + 1] == (if BothFeatures(g) then kept[k].0 else 0))
              && (forall r :: 2 * |kept| <= r < 2 * m ==> out.neighbors[r] == 0)
  {
    GetInhomoDataClosedForm(g);
    var kept := Kept(g.edgeIndex);
    if AllOk(g, kept) {
      ExpectedRows(g, kept);
    }
  }

  /** The two feature rows of the k-th kept edge e = (s, d) in the output of
      `get_inhomo_data`, by which features are present: `[1]` twice without
      any; the node features of s and d (subscripts resolved) with node
      features only; and with edge features the row of the first occurrence of
      e in `edge_index`, which always exists, after each endpoint's node
      feature when node features are present too. */
  lemma GetInhomoDataFeatureTable(g: CustomGraph, k: int)
    requires GetInhomoData(g).Ok? && 0 <= k < |Kept(g.edgeIndex)|
    ensures |Kept(g.edgeIndex)| <= EdgeCount(g)
    ensures var e, rows := Kept(g.edgeIndex)[k], GetInhomoData(g).value.features.rows;
            g.nodeFeat.None? && g.edgeFeat.None? ==>
              rows[2 * k] == [1.0] && rows[2 * k + 1] == [1.0]
    ensures var e, rows := Kept(g.edgeIndex)[k], GetInhomoData(g).value.features.rows;
            g.nodeFeat.Some? && g.edgeFeat.None? ==>
              var nf := g.nodeFeat.value;
              && PyIndex(e.0, |nf.rows|).Some? && PyIndex(e.1, |nf.rows|).Some?
              && rows[2 * k] == nf.rows[PyIndex(e.0, |nf.rows|).value]
              && rows[2 * k + 1] == nf.rows[PyIndex(e.1, |nf.rows|).value]
    ensures var e, rows := Kept(g.edgeIndex)[k], GetInhomoData(g).value.features.rows;
            g.nodeFeat.None? && g.edgeFeat.Some? ==>
              var ef := g.edgeFeat.value;
              && FirstIndexOf(g.edgeIndex, e).Some? && FirstIndexOf(g.edgeIndex, e).value < |ef.rows|
              && rows[2 * k] == ef.rows[FirstIndexOf(g.edgeIndex, e).value]
              && rows[2 * k + 1] == ef.rows[FirstIndexOf(g.edgeIndex, e).value]
    ensures var e, rows := Kept(g.edgeIndex)[k], GetInhomoData(g).value.features.rows;
            g.nodeFeat.Some? && g.edgeFeat.Some? ==>
              var nf, ef := g.nodeFeat.value, g.edgeFeat.value;
              && FirstIndexOf(g.edgeIndex, e).Some? && FirstIndexOf(g.edgeIndex, e).value < |ef.rows|
              && PyIndex(e.0, |nf.rows|).Some? && PyIndex(e.1, |nf.rows|).Some?
              && rows[2 * k] == nf.rows[PyIndex(e.0, |nf.rows|).value] + ef.rows[FirstIndexOf(g.edgeIndex, e).value]
              && rows[2 * k + 1] == nf.rows[PyIndex(e.1, |nf.rows|).value] + ef.rows[FirstIndexOf(g.edgeIndex, e).value]
  {
    GetInhomoDataSpec(g);
    var kept := Kept(g.edgeIndex);
    var e := kept[k];
    assert EdgeOk(g, e);
    assert e in g.edgeIndex;
  }

  /** The incidence rows of the closed-form state: unit rows of the kept
      edges, then zero rows. */
  lemma ExpectedIncident(g: CustomGraph, kept: seq<Edge>)
    requires |kept| <= EdgeCount(g)
    ensures var st := ExpectedState(g, kept);
            forall k :: 0 <= k < EdgeCount(g) ==>
              st.incident[k] == if k < |kept| then UnitRow(g.numNodes, kept[k]) else Zeros(g.numNodes)
  {
  }

  /** Rows 2k and 2k + 1 of the feature and neighbour tensors of the
      closed-form state, for the k-th kept edge. */
  lemma ExpectedPair(g: CustomGraph, kept: seq<Edge>, k: int)
    requires AllOk(g, kept) && 0 <= k < |kept|
    ensures var st := ExpectedState(g, kept);
            && st.features[2 * k] == IncidenceRows(g, kept[k]).value.0
            && st.features[2 * k + 1] == IncidenceRows(g, kept[k]).value.1
            && st.neighbors[2 * k] == (if BothFeatures(g) then kept[k].1 else 0)
            && st.neighbors[2 * k + 1] == (if BothFeatures(g) then kept[k].0 else 0)
  {
    assert EdgeOk(g, kept[k]);
    assert (2 * k) / 2 == k && (2 * k) % 2 == 0;
    assert (2 * k + 1) / 2 == k && (2 * k + 1) % 2 == 1;
  }

  /** The feature and neighbour rows past the kept edges stay zero. */
  lemma ExpectedTail(g: CustomGraph, kept: seq<Edge>)
    requires |kept| <= EdgeCount(g)
    ensures var st, m := ExpectedState(g, kept), EdgeCount(g);
            && (forall r :: 2 * |kept| <= r < 2 * m ==> st.features[r] == Zeros(FeatureWidth(g)))
            && (forall r :: 2 * |kept| <= r < 2 * m ==> st.neighbors[r] == 0)
  {
  }

  /** With rectangular inputs every feature row of the closed-form state has
      the allocated width. */
  lemma ExpectedWidth(g: CustomGraph, kept: seq<Edge>)
    requires AllOk(g, kept) && InputsWellFormed(g)
    ensures var st := ExpectedState(g, kept);
            forall r :: 0 <= r < 2 * EdgeCount(g) ==> |st.features[r]| == FeatureWidth(g)
  {
    var st := ExpectedState(g, kept);
    forall r | 0 <= r < 2 * EdgeCount(g) ensures |st.features[r]| == FeatureWidth(g) {
      if r < 2 * |kept| {
        assert EdgeOk(g, kept[r / 2]);
        assert st.features[r] == FeatureRow(g, kept[r / 2], r % 2 == 0);
      } else {
        assert st.features[r] == Zeros(FeatureWidth(g));
      }
    }
  }

  /** Reads the closed-form state row by row. */
  lemma ExpectedRows(g: CustomGraph, kept: seq<Edge>)
    requires AllOk(g, kept)
    ensures var st, m := ExpectedState(g, kept), EdgeCount(g);
            && (forall k :: 0 <= k < m ==>
                  st.incident[k] == if k < |kept| then UnitRow(g.numNodes, kept[k]) else Zeros(g.numNodes))
            && (forall k :: 0 <= k < |kept| ==>
                  st.features[2 * k] == IncidenceRows(g, kept[k]).value.0 &&
                  st.features[2 * k + 1] == IncidenceRows(g, kept[k]).value.1 &&
                  st.neighbors[2 * k] == (if BothFeatures(g) then kept[k].1 else 0) &&
                  st.neighbors[2 * k + 1] == (if BothFeatures(g) then kept[k].0 else 0))
            && (forall r :: 2 * |kept| <= r < 2 * m ==> st.features[r] == Zeros(FeatureWidth(g)))
            && (forall r :: 2 * |kept| <= r < 2 * m ==> st.neighbors[r] == 0)
            && (InputsWellFormed(g) ==> forall r :: 0 <= r < 2 * m ==> |st.features[r]| == FeatureWidth(g))
  {
    ExpectedIncident(g, kept);
    ExpectedTail(g, kept);
    forall k | 0 <= k < |kept| {
      ExpectedPair(g, kept, k);
    }
    if InputsWellFormed(g) {
      ExpectedWidth(g, kept);
    }
  }

  // ---------------------------------------------------------------------------
  // Row sums of the incidence matrix
  // ---------------------------------------------------------------------------

  /** Sum of the entries of a row. */
  function RowSum(row: seq<real>): real {
    if |row| == 0 then 0.0 else RowSum(row[..|row| - 1]) + row[|row| - 1]
  }

  /** A row of length `len` with ones in columns a and b. */
  function TwoHot(a: int, b: int, len: nat): seq<real> {
    seq(len, c => if c == a || c == b then 1.0 else 0.0)
  }

  lemma {:induction false} TwoHotSum(a: int, b: int, len: nat)
    ensures RowSum(TwoHot(a, b, len)) ==
              (if 0 <= a < len then 1.0 else 0.0) + (if 0 <= b < len && b != a then 1.0 else 0.0)
  {
    if len > 0 {
      assert TwoHot(a, b, len)[..len - 1] == TwoHot(a, b, len - 1);
      TwoHotSum(a, b, len - 1);
    }
  }

  /** An incidence row written for edge (s, d) whose subscripts both resolve
      holds exactly the entries 0 and 1, ones in exactly the two resolved
      endpoint columns, and sums to 2 (to 1 when both resolve to one column). */
  lemma UnitRowSpec(n: nat, e: Edge)
    requires PyIndex(e.0, n).Some? && PyIndex(e.1, n).Some?
    ensures var s, d := PyIndex(e.0, n).value, PyIndex(e.1, n).value;
            forall c :: 0 <= c < n ==>
              (UnitRow(n, e)[c] == 1.0 <==> c == s || c == d) &&
              (UnitRow(n, e)[c] == 0.0 <==> c != s && c != d)
    ensures RowSum(UnitRow(n, e)) == if PyIndex(e.0, n) == PyIndex(e.1, n) then 1.0 else 2.0
  {
    var s, d := PyIndex(e.0, n).value, PyIndex(e.1, n).value;
    assert UnitRow(n, e) == TwoHot(s, d, n);
    TwoHotSum(s, d, n);
  }

  // ---------------------------------------------------------------------------
  // The deduplication rule
  // ---------------------------------------------------------------------------

  /** No kept edge is the reverse of an edge kept before it. */
  lemma {:induction false} KeptNoReverse(edges: seq<Edge>)
    ensures forall a, b :: 0 <= a < b < |Kept(edges)| ==> Kept(edges)[b] != Reverse(Kept(edges)[a])
  {
    if |edges| > 0 {
      KeptNoReverse(edges[..|edges| - 1]);
    }
  }

  /** Every input edge is kept or has its reverse kept. */
  lemma {:induction false} KeptCovers(edges: seq<Edge>)
    ensures forall x :: x in edges ==> x in Kept(edges) || Reverse(x) in Kept(edges)
  {
    if |edges| > 0 {
      var prev := edges[..|edges| - 1];
      KeptCovers(prev);
      assert edges == prev + [edges[|edges| - 1]];
    }
  }

  /** Only the reverse is looked up: an edge that is not a self-loop and whose
      reverse has not been kept is kept again each time it repeats. */
  lemma KeptRepeatsEdge(edges: seq<Edge>, e: Edge)
    requires e.0 != e.1 && Reverse(e) !in Kept(edges)
    ensures Kept(edges + [e, e]) == Kept(edges) + [e, e]
  {
    var once := edges + [e];
    KeptSnoc(edges, e);
    assert Kept(once) == Kept(edges) + [e];
    assert Reverse(e) !in Kept(once) by {
      assert Reverse(e) != e;
    }
    KeptSnoc(once, e);
    assert edges + [e, e] == once + [e];
    assert Kept(edges) + [e] + [e] == Kept(edges) + [e, e];
  }

  /** No edge occurs twice. */
  predicate Distinct(s: seq<Edge>) {
    forall i, j :: 0 <= i < j < |s| ==> s[i] != s[j]
  }

  /** Every edge is listed in both directions. */
  predicate Symmetric(edges: seq<Edge>) {
    forall x :: x in edges ==> Reverse(x) in edges
  }

  /** No edge joins a node to itself. */
  predicate LoopFree(edges: seq<Edge>) {
    forall x :: x in edges ==> x.0 != x.1
  }

  /** A list without repeats has as many distinct elements as entries. */
  lemma {:induction false} DistinctCard(s: seq<Edge>)
    requires Distinct(s)
    ensures |set x | x in s| == |s|
  {
    if |s| > 0 {
      var p, e := s[..|s| - 1], s[|s| - 1];
      assert Distinct(p) by {
        forall i, j | 0 <= i < j < |p| ensures p[i] != p[j] {
          assert p[i] == s[i] && p[j] == s[j];
        }
      }
      DistinctCard(p);
      assert s == p + [e];
      assert (set x | x in s) == (set x | x in p) + {e};
      assert e !in p by {
        forall i | 0 <= i < |p| ensures p[i] != e {
          assert p[i] == s[i];
        }
      }
    }
  }

  /** The scan keeps no edge twice when the input repeats none. */
  lemma {:induction false} KeptDistinct(edges: seq<Edge>)
    requires Distinct(edges)
    ensures Distinct(Kept(edges))
  {
    if |edges| > 0 {
      var p, e := edges[..|edges| - 1], edges[|edges| - 1];
      assert Distinct(p) by {
        forall i, j | 0 <= i < j < |p| ensures p[i] != p[j] {
          assert p[i] == edges[i] && p[j] == edges[j];
        }
      }
      KeptDistinct(p);
      assert e !in p by {
        forall i | 0 <= i < |p| ensures p[i] != e {
          assert p[i] == edges[i];
        }
      }
      assert e !in Kept(p);
    }
  }

  /** On a list without self-loops no two kept edges are each other's reverse. */
  lemma KeptNotBothWays(edges: seq<Edge>, a: int, b: int)
    requires LoopFree(edges) && 0 <= a < |Kept(edges)| && 0 <= b < |Kept(edges)|
    ensures Kept(edges)[b] != Reverse(Kept(edges)[a])
  {
    KeptNoReverse(edges);
    if a == b {
      assert Kept(edges)[a] in edges;
    } else if b < a {
      assert Kept(edges)[a] != Reverse(Kept(edges)[b]);
    }
  }

  /** Of an edge and its reverse, at most one is kept, on a list without self-loops. */
  lemma KeptOneWay(edges: seq<Edge>)
    requires LoopFree(edges)
    ensures forall x :: x in Kept(edges) ==> Reverse(x) !in Kept(edges)
  {
    var kept := Kept(edges);
    forall x | x in kept ensures Reverse(x) !in kept {
      var a :| 0 <= a < |kept| && kept[a] == x;
      forall b | 0 <= b < |kept| ensures kept[b] != Reverse(x) {
        KeptNotBothWays(edges, a, b);
      }
    }
  }

  /** Every edge of a list, reversed. */
  function Reverses(s: seq<Edge>): (r: seq<Edge>)
    ensures |r| == |s|
  {
    seq(|s|, i requires 0 <= i < |s| => Reverse(s[i]))
  }

  /** The reversed list holds exactly the reverses, and repeats none when the
      list repeats none. */
  lemma ReversesSpec(s: seq<Edge>)
    ensures forall x :: x in Reverses(s) <==> Reverse(x) in s
    ensures Distinct(s) ==> Distinct(Reverses(s))
  {
    var r := Reverses(s);
    forall x ensures x in r <==> Reverse(x) in s {
      if Reverse(x) in s {
        var i :| 0 <= i < |s| && s[i] == Reverse(x);
        assert r[i] == x;
      }
    }
  }

  /** A list split into a part and the reverses of that part, the two sharing
      nothing, is twice as long as the part. */
  lemma HalfByReverse(part: seq<Edge>, whole: seq<Edge>)
    requires Distinct(part) && Distinct(whole)
    requires forall x :: x in part ==> Reverse(x) !in part
    requires forall x :: x in whole <==> x in part || Reverse(x) in part
    ensures 2 * |part| == |whole|
  {
    var revs := Reverses(part);
    ReversesSpec(part);
    DistinctCard(part);
    DistinctCard(revs);
    DistinctCard(whole);
    var K, R, E := set x | x in part, set x | x in revs, set x | x in whole;
    assert K * R == {};
    assert E == K + R;
  }

  /** A directed list that holds each undirected bond once in each direction
      (no repeats, no self-loops, every reverse present) keeps exactly half of
      its edges: of every edge and its reverse, exactly one is kept. */
  lemma KeptHalvesSymmetric(edges: seq<Edge>)
    requires Distinct(edges) && LoopFree(edges) && Symmetric(edges)
    ensures 2 * |Kept(edges)| == |edges|
    ensures forall x :: x in edges ==> (x in Kept(edges) <==> Reverse(x) !in Kept(edges))
  {
    var kept := Kept(edges);
    KeptCovers(edges);
    KeptOneWay(edges);
    KeptDistinct(edges);
    forall x ensures x in edges <==> x in kept || Reverse(x) in kept {
      if Reverse(x) in kept {
        assert Reverse(x) in edges;
        assert Reverse(Reverse(x)) == x;
      }
    }
    HalfByReverse(kept, edges);
  }

  /** The edge list (0, 1), (1, 0), (0, 1) with num_edges = 3 allocates one
      row (3 div 2); the repeated bond is kept a second time because only its
      reverse is looked up, so the second write overflows and raises IndexError. */
  lemma RepeatedBondOverflows(g: CustomGraph)
    requires g.edgeIndex == [(0, 1), (1, 0), (0, 1)] && g.numEdges == 3
    ensures Kept(g.edgeIndex) == [(0, 1), (0, 1)] && GetInhomoData(g) == Err(IndexError)
  {
    KeptSnoc([], (0, 1));
    KeptSnoc([(0, 1)], (1, 0));
    KeptSnoc([(0, 1), (1, 0)], (0, 1));
    assert [(0, 1), (1, 0)] + [(0, 1)] == g.edgeIndex;
    GetInhomoDataClosedForm(g);
  }
}
