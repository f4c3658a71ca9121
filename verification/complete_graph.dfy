/**
 `make_complete_graph`: densifies a sparse directed edge list on n nodes into
 every ordered pair (i, j), i != j, carrying the sparse edge's feature where
 the pair is a bond and a zero vector elsewhere.

 The enumeration and the scatter loop are modelled as written (the `nonzero()`
 scan of a matrix of ones with a zeroed diagonal, and one masked row
 assignment per sparse edge); the lemmas relate them to closed forms.
 */
module CompleteGraph {
  import opened Tensors

  // ---------------------------------------------------------------------------
  // Enumeration of the ordered pairs
  // ---------------------------------------------------------------------------

  /** Row i, of length `len`, of `np.ones((n, n))` after `np.fill_diagonal(_, 0.)`. */
  function AdjRow(i: int, len: nat): seq<real> {
    seq(len, j => if j == i then 0.0 else 1.0)
  }

  /** The first r rows of the n-by-n all-ones matrix with a zeroed diagonal. */
  function AdjRows(n: nat, r: nat): seq<seq<real>> {
    seq(r, i => AdjRow(i, n))
  }

  /** Coordinates (i, j) of the non-zero cells of `row` (row i of a matrix), by increasing j. */
  function RowNonZero(i: int, row: seq<real>): seq<Edge> {
    if |row| == 0 then []
    else RowNonZero(i, row[..|row| - 1]) + (if row[|row| - 1] != 0.0 then [(i, |row| - 1)] else [])
  }

  /** `m.nonzero()`: coordinates of the non-zero cells of m in row-major order. */
  function NonZero(m: seq<seq<real>>): seq<Edge> {
    if |m| == 0 then []
    else NonZero(m[..|m| - 1]) + RowNonZero(|m| - 1, m[|m| - 1])
  }

  /** `comp_edges`: the non-zero coordinates of the complete adjacency matrix. */
  function CompletePairs(n: nat): (r: seq<Edge>)
    ensures |r| == n * (n - 1)
  {
    NonZeroOfAdjRowsLength(n, n);
    NonZero(AdjRows(n, n))
  }

  /** An ordered pair of distinct nodes of an n-node graph. */
  predicate IsPair(p: Edge, n: nat) {
    0 <= p.0 < n && 0 <= p.1 < n && p.0 != p.1
  }

  /** Closed-form row of pair (i, j) in row-major order with the diagonal skipped. */
  function PairIndex(i: int, j: int, n: nat): int {
    i * (n - 1) + (if j < i then j else j - 1)
  }

  lemma MulMono(a: int, b: int, c: int)
    requires 0 <= c && a <= b
    ensures a * c <= b * c
  {
  }

  /** Pair (i, j) lies in block i of width n - 1. */
  lemma PairIndexInBlock(i: int, j: int, n: nat)
    requires IsPair((i, j), n)
    ensures i * (n - 1) <= PairIndex(i, j, n) < (i + 1) * (n - 1)
  {
    assert (i + 1) * (n - 1) == i * (n - 1) + (n - 1);
  }

  /** The non-zero cells of one row of the complete adjacency matrix: every
      column except the diagonal one, in increasing order. */
  lemma {:induction false} RowNonZeroOfAdj(i: nat, len: nat)
    ensures |RowNonZero(i, AdjRow(i, len))| == (if i < len then len - 1 else len)
    ensures forall k :: 0 <= k < |RowNonZero(i, AdjRow(i, len))| ==>
              RowNonZero(i, AdjRow(i, len))[k] == (i, if k < i then k else k + 1)
  {
    if len > 0 {
      var row := AdjRow(i, len);
      assert row[..len - 1] == AdjRow(i, len - 1);
      RowNonZeroOfAdj(i, len - 1);
    }
  }

  /** Row r of the complete adjacency matrix extends the enumeration of the rows above it. */
  lemma NonZeroOfAdjRowsStep(n: nat, r: nat)
    requires 0 < r
    ensures NonZero(AdjRows(n, r)) == NonZero(AdjRows(n, r - 1)) + RowNonZero(r - 1, AdjRow(r - 1, n))
  {
    var m := AdjRows(n, r);
    assert m[..r - 1] == AdjRows(n, r - 1);
    assert m[r - 1] == AdjRow(r - 1, n);
  }

  lemma {:induction false} NonZeroOfAdjRowsLength(n: nat, r: nat)
    requires r <= n
    ensures |NonZero(AdjRows(n, r))| == r * (n - 1)
  {
    if r > 0 {
      NonZeroOfAdjRowsStep(n, r);
      NonZeroOfAdjRowsLength(n, r - 1);
      RowNonZeroOfAdj(r - 1, n);
      assert r * (n - 1) == (r - 1) * (n - 1) + (n - 1);
    }
  }

  /** Every cell the first r rows enumerate is a pair with source below r,
      sitting at its closed-form row. */
  lemma {:induction false} NonZeroOfAdjRowsCells(n: nat, r: nat)
    requires r <= n
    ensures forall k :: 0 <= k < |NonZero(AdjRows(n, r))| ==>
              IsPair(NonZero(AdjRows(n, r))[k], n) && NonZero(AdjRows(n, r))[k].0 < r &&
              PairIndex(NonZero(AdjRows(n, r))[k].0, NonZero(AdjRows(n, r))[k].1, n) == k
  {
    if r > 0 {
      NonZeroOfAdjRowsStep(n, r);
      NonZeroOfAdjRowsCells(n, r - 1);
      NonZeroOfAdjRowsLength(n, r - 1);
      RowNonZeroOfAdj(r - 1, n);
      var prev := NonZero(AdjRows(n, r - 1));
      var row := RowNonZero(r - 1, AdjRow(r - 1, n));
      var all := NonZero(AdjRows(n, r));
      var base := |prev|;
      forall k | 0 <= k < |all|
        ensures IsPair(all[k], n) && all[k].0 < r && PairIndex(all[k].0, all[k].1, n) == k
      {
        if k >= base {
          var c := k - base;
          assert all[k] == row[c];
          assert all[k] == (r - 1, if c < r - 1 then c else c + 1);
        } else {
          assert all[k] == prev[k];
        }
      }
    }
  }

  /** The closed-form row of a pair lies within the n*(n-1) rows. */
  lemma PairIndexBelow(i: int, j: int, n: nat)
    requires IsPair((i, j), n)
    ensures 0 <= PairIndex(i, j, n) < n * (n - 1)
  {
    PairIndexInBlock(i, j, n);
    MulMono(i + 1, n, n - 1);
  }

  /** Distinct pairs have distinct closed-form rows. */
  lemma PairIndexInjective(a: int, b: int, i: int, j: int, n: nat)
    requires IsPair((a, b), n) && IsPair((i, j), n)
    requires PairIndex(a, b, n) == PairIndex(i, j, n)
    ensures a == i && b == j
  {
    PairIndexInBlock(a, b, n);
    PairIndexInBlock(i, j, n);
    if a < i {
      MulMono(a + 1, i, n - 1);
    } else if i < a {
      MulMono(i + 1, a, n - 1);
    }
  }

  /** `comp_edges` holds exactly n*(n-1) pairs: every ordered pair of distinct
      nodes, once, in row-major order, pair (i, j) at row PairIndex(i, j, n). */
  lemma CompletePairsSpec(n: nat)
    ensures |CompletePairs(n)| == n * (n - 1)
    ensures forall k :: 0 <= k < |CompletePairs(n)| ==>
              IsPair(CompletePairs(n)[k], n) &&
              PairIndex(CompletePairs(n)[k].0, CompletePairs(n)[k].1, n) == k
    ensures forall i, j :: IsPair((i, j), n) ==>
              0 <= PairIndex(i, j, n) < |CompletePairs(n)| &&
              CompletePairs(n)[PairIndex(i, j, n)] == (i, j)
  {
    NonZeroOfAdjRowsLength(n, n);
    NonZeroOfAdjRowsCells(n, n);
    var pairs := CompletePairs(n);
    forall i, j | IsPair((i, j), n)
      ensures 0 <= PairIndex(i, j, n) < |pairs| && pairs[PairIndex(i, j, n)] == (i, j)
    {
      var k := PairIndex(i, j, n);
      PairIndexBelow(i, j, n);
      var p := pairs[k];
      assert IsPair(p, n) && PairIndex(p.0, p.1, n) == k;
      PairIndexInjective(p.0, p.1, i, j, n);
    }
  }

  /** Row-major order: an earlier row holds a lexicographically smaller pair. */
  lemma CompletePairsRowMajor(n: nat, a: int, b: int)
    requires 0 <= a < b < |CompletePairs(n)|
    ensures CompletePairs(n)[a].0 < CompletePairs(n)[b].0 ||
            (CompletePairs(n)[a].0 == CompletePairs(n)[b].0 && CompletePairs(n)[a].1 < CompletePairs(n)[b].1)
  {
    CompletePairsSpec(n);
    var p, q := CompletePairs(n)[a], CompletePairs(n)[b];
    PairIndexInBlock(p.0, p.1, n);
    PairIndexInBlock(q.0, q.1, n);
    if q.0 < p.0 {
      MulMono(q.0 + 1, p.0, n - 1);
    } else if p.0 < q.0 {
    }
  }

  // ---------------------------------------------------------------------------
  // Copying the sparse features onto the dense pairs
  // ---------------------------------------------------------------------------

  /** `np.intersect1d(np.where(e.0 == pairs[:, 0]), np.where(e.1 == pairs[:, 1]))`:
      the rows of `pairs` whose source and whose target both match e. */
  function MatchingRows(pairs: seq<Edge>, e: Edge): (r: set<nat>)
    ensures forall k: nat :: k in r <==> k < |pairs| && pairs[k] == e
  {
    (set k: nat | k < |pairs| && pairs[k].0 == e.0) * (set k: nat | k < |pairs| && pairs[k].1 == e.1)
  }

  /** `dense[rows, :] = v`: overwrite every listed row with v. */
  function AssignRows(dense: seq<Vec>, rows: set<nat>, v: Vec): seq<Vec> {
    seq(|dense|, k requires 0 <= k < |dense| => if k in rows then v else dense[k])
  }

  /** `comp_edge_features` after the loop has handled the first `count` sparse
      edges: zeros at first, then for sparse edge t the matching dense rows get
      `edge_features[t]`, which raises when the tensor has no row t. */
  function ScatterPrefix(pairs: seq<Edge>, edges: seq<Edge>, feats: Matrix, count: nat): (r: Result<seq<Vec>>)
    requires count <= |edges|
    ensures r.Ok? <==> count <= |feats.rows|
    ensures r.Err? ==> r.error == IndexError
    ensures r.Ok? ==> |r.value| == |pairs|
  {
    if count == 0 then Ok(seq(|pairs|, _ => Zeros(feats.width)))
    else
      match ScatterPrefix(pairs, edges, feats, count - 1)
      case Err(err) => Err(err)
      case Ok(dense) =>
        if count - 1 < |feats.rows| then
          Ok(AssignRows(dense, MatchingRows(pairs, edges[count - 1]), feats.rows[count - 1]))
        else Err(IndexError)
  }

  /** `make_complete_graph(edge_index, edge_features, num_nodes)`: the complete
      pair list and the dense feature tensor of width `edge_features.shape[1]`. */
  function MakeCompleteGraph(edges: seq<Edge>, feats: Matrix, n: nat): (r: Result<(seq<Edge>, Matrix)>)
    ensures r.Ok? <==> |edges| <= |feats.rows|
    ensures r.Err? ==> r.error == IndexError
    ensures r.Ok? ==> r.value.0 == CompletePairs(n) && |r.value.1.rows| == n * (n - 1) && r.value.1.width == feats.width
  {
    var pairs := CompletePairs(n);
    match ScatterPrefix(pairs, edges, feats, |edges|)
    case Err(err) => Err(err)
    case Ok(dense) => Ok((pairs, Matrix(dense, feats.width)))
  }

  // ---------------------------------------------------------------------------
  // Reference: last write wins
  // ---------------------------------------------------------------------------

  /** Position of the last occurrence of e in `edges`, if any. */
  function LastIndexOf(edges: seq<Edge>, e: Edge): (r: Option<nat>)
    ensures r.None? <==> e !in edges
    ensures r.Some? ==> r.value < |edges| && edges[r.value] == e &&
                        forall t :: r.value < t < |edges| ==> edges[t] != e
  {
    if |edges| == 0 then None
    else if edges[|edges| - 1] == e then Some(|edges| - 1)
    else LastIndexOf(edges[..|edges| - 1], e)
  }

  /** The dense row a pair p should carry: the feature of the last sparse edge
      equal to p, or the zero vector when p is not a sparse edge. */
  function DenseRow(edges: seq<Edge>, feats: Matrix, p: Edge): Vec
    requires |edges| <= |feats.rows|
  {
    match LastIndexOf(edges, p)
    case None => Zeros(feats.width)
    case Some(t) => feats.rows[t]
  }

  /** The scatter loop fails exactly when `edge_features` has fewer rows than
      there are sparse edges; otherwise each dense row holds the feature of the
      last sparse edge equal to its pair, and zeros when there is none. */
  lemma {:induction false} ScatterPrefixSpec(pairs: seq<Edge>, edges: seq<Edge>, feats: Matrix, count: nat)
    requires count <= |edges|
    ensures ScatterPrefix(pairs, edges, feats, count).Ok? <==> count <= |feats.rows|
    ensures ScatterPrefix(pairs, edges, feats, count).Err? ==> ScatterPrefix(pairs, edges, feats, count).error == IndexError
    ensures ScatterPrefix(pairs, edges, feats, count).Ok? ==>
              |ScatterPrefix(pairs, edges, feats, count).value| == |pairs| &&
              forall k :: 0 <= k < |pairs| ==>
                ScatterPrefix(pairs, edges, feats, count).value[k] == DenseRow(edges[..count], feats, pairs[k])
  {
    if count > 0 {
      ScatterPrefixSpec(pairs, edges, feats, count - 1);
      var r := ScatterPrefix(pairs, edges, feats, count);
      if r.Ok? {
        var dense := ScatterPrefix(pairs, edges, feats, count - 1).value;
        var e := edges[count - 1];
        assert edges[..count][..count - 1] == edges[..count - 1];
        forall k | 0 <= k < |pairs|
          ensures r.value[k] == DenseRow(edges[..count], feats, pairs[k])
        {
          if pairs[k] == e {
            assert k in MatchingRows(pairs, e);
          } else {
            assert k !in MatchingRows(pairs, e);
          }
        }
      }
    }
  }

  /** On the complete pair list every sparse edge that is a pair of distinct
      in-range nodes matches exactly one dense row, PairIndex(e), and any other
      sparse edge (a self-loop, an out-of-range node) matches none. */
  lemma MatchingRowsOfComplete(n: nat, e: Edge)
    ensures MatchingRows(CompletePairs(n), e) == if IsPair(e, n) then {PairIndex(e.0, e.1, n) as nat} else {}
  {
    CompletePairsSpec(n);
    var pairs := CompletePairs(n);
    if IsPair(e, n) {
      var want := PairIndex(e.0, e.1, n) as nat;
      assert want in MatchingRows(pairs, e);
      forall k | k in MatchingRows(pairs, e) ensures k == want {
        assert pairs[k] == e;
      }
    } else {
      forall k | 0 <= k < |pairs| ensures pairs[k] != e {
        assert IsPair(pairs[k], n);
      }
      assert MatchingRows(pairs, e) == {};
    }
  }

  /** A sparse edge that is not a pair of distinct in-range nodes leaves the
      dense features untouched when the loop reaches it. */
  lemma NonPairEdgeIsNoOp(n: nat, dense: seq<Vec>, e: Edge, v: Vec)
    requires !IsPair(e, n)
    ensures AssignRows(dense, MatchingRows(CompletePairs(n), e), v) == dense
  {
    MatchingRowsOfComplete(n, e);
  }

  /** `make_complete_graph` fails exactly when the feature tensor has fewer rows
      than the sparse edge list; otherwise it returns the complete pair list and
      a rectangular feature tensor of the same width in which the row of pair
      (i, j) is the feature of the last sparse edge equal to (i, j), or zeros. */
  lemma MakeCompleteGraphSpec(edges: seq<Edge>, feats: Matrix, n: nat)
    ensures MakeCompleteGraph(edges, feats, n).Ok? <==> |edges| <= |feats.rows|
    ensures MakeCompleteGraph(edges, feats, n).Err? ==> MakeCompleteGraph(edges, feats, n).error == IndexError
    ensures MakeCompleteGraph(edges, feats, n).Ok? ==>
              var (pairs, dense) := MakeCompleteGraph(edges, feats, n).value;
              && pairs == CompletePairs(n)
              && |dense.rows| == n * (n - 1)
              && dense.width == feats.width
              && (WellFormed(feats) ==> WellFormed(dense))
              && forall i, j :: IsPair((i, j), n) ==>
                   0 <= PairIndex(i, j, n) < |dense.rows| &&
                   dense.rows[PairIndex(i, j, n)] == DenseRow(edges, feats, (i, j))
  {
    CompletePairsSpec(n);
    ScatterPrefixSpec(CompletePairs(n), edges, feats, |edges|);
    assert edges[..|edges|] == edges;
    var r := MakeCompleteGraph(edges, feats, n);
    if r.Ok? && WellFormed(feats) {
      var dense := r.value.1;
      forall k | 0 <= k < |dense.rows| ensures |dense.rows[k]| == dense.width {
        assert dense.rows[k] == DenseRow(edges, feats, CompletePairs(n)[k]);
      }
    }
  }

  /** The shape of `make_complete_graph`'s result, without its rows. */
  lemma MakeCompleteGraphShape(edges: seq<Edge>, feats: Matrix, n: nat)
    requires |edges| <= |feats.rows|
    ensures MakeCompleteGraph(edges, feats, n).Ok?
    ensures var (pairs, dense) := MakeCompleteGraph(edges, feats, n).value;
            pairs == CompletePairs(n) && |dense.rows| == n * (n - 1) && dense.width == feats.width
  {
    MakeCompleteGraphSpec(edges, feats, n);
  }

  /** The dense row of one pair (i, j). */
  lemma MakeCompleteGraphRow(edges: seq<Edge>, feats: Matrix, n: nat, i: int, j: int)
    requires |edges| <= |feats.rows| && IsPair((i, j), n)
    ensures MakeCompleteGraph(edges, feats, n).Ok?
    ensures var dense := MakeCompleteGraph(edges, feats, n).value.1;
            0 <= PairIndex(i, j, n) < |dense.rows| && dense.rows[PairIndex(i, j, n)] == DenseRow(edges, feats, (i, j))
  {
    MakeCompleteGraphSpec(edges, feats, n);
  }

  /** The dense rows that carry a feature are exactly those of pairs that are
      bonds: a row of a pair that is no bond is the zero vector, and when no
      bond's feature is itself the zero vector, a row is non-zero exactly when
      its pair occurs in the sparse edge list. */
  lemma MakeCompleteGraphNonZeroRows(edges: seq<Edge>, feats: Matrix, n: nat, k: int)
    requires |edges| <= |feats.rows| && 0 <= k < n * (n - 1)
    ensures MakeCompleteGraph(edges, feats, n).Ok?
    ensures var (pairs, dense) := MakeCompleteGraph(edges, feats, n).value;
            pairs[k] !in edges ==> dense.rows[k] == Zeros(feats.width)
    ensures var (pairs, dense) := MakeCompleteGraph(edges, feats, n).value;
            (forall t :: 0 <= t < |edges| ==> feats.rows[t] != Zeros(feats.width)) ==>
              (dense.rows[k] != Zeros(feats.width) <==> pairs[k] in edges)
  {
    MakeCompleteGraphSpec(edges, feats, n);
    CompletePairsSpec(n);
    var (pairs, dense) := MakeCompleteGraph(edges, feats, n).value;
    var p := pairs[k];
    assert IsPair(p, n) && PairIndex(p.0, p.1, n) == k;
    assert dense.rows[k] == DenseRow(edges, feats, p);
  }
}
