# QM9 incidence preprocessing — a Dafny model

This project models the graph-transformation core of the QM9 preprocessing
script `data_prep/qm9_prep.py`. A molecule arrives as a sparse directed bond
list with per-bond features and, optionally, per-atom features. The script
turns it into an edge-centric incidence representation:

1. `make_complete_graph` densifies the bond list. It lists every ordered pair
   of distinct atoms row by row, the non-zero cells of an all-ones adjacency
   matrix with a zero diagonal. It then copies each bond's feature onto the
   dense row of the same pair, so a later duplicate bond overwrites an earlier
   one. Every pair that is not a bond keeps a zero row.
2. `CustomGraph.__init__` records the feature widths. `get_inhomo_data` then
   scans the directed edges and skips any edge whose reverse it has already
   kept. For each kept edge it writes:
   - one incidence row with ones at both endpoints;
   - two feature rows (constant 1, edge feature, node features, or node
     feature followed by edge feature, depending on which inputs exist);
   - in the both-features case only, the opposite endpoint of each row into
     the neighbour index.
3. `mycollate` chains the two for one sample and returns the dictionary
   `incident`, `incident_features`, `edge_neigh`, `labels`.

Modules, one per file:

- `Tensors` (`tensors.dfy`): feature rows (`seq<real>`), rank-2 tensors
  (`Matrix`, with a rectangularity predicate), directed edges, and the
  `Result` type. Its two error kinds are `IndexError` and
  `UnboundLocalError`. `PyIndex` resolves a subscript the way numpy and torch
  do, so negative subscripts wrap.
- `CompleteGraph` (`complete_graph.dfy`): the code as written.
  - The enumeration is the non-zero cells of the adjacency matrix.
  - The scatter is one assignment per bond to the rows that
    `np.intersect1d` selects.
  - It is related to the closed forms `PairIndex(i, j, n) = i*(n-1) + (j < i ? j : j-1)`
    and `DenseRow`, the feature of the last equal bond, or zeros.
- `Incidence` (`incidence.dfy`): the `get_inhomo_data` loop, one `Step` per
  edge and folded over prefixes (`RunPrefix`). It is related to an
  independent closed form `ExpectedState` over `Kept`, the edges the scan
  keeps.
- `LexPairs` (`lex_pairs.dfy`): on the complete pair list the scan keeps
  exactly the pairs `i < j` in lexicographic order.
- `Collate` (`collate.dfy`): `mycollate` end to end. Its composition theorem
  describes every row of the returned dictionary in terms of the input
  sample.
- `Scenarios` (`scenarios.dfy`): small worked samples.

Some behaviours of the code that a reader might not expect:

- `edge_neighbors` is written only in the both-features branch
  (qm9_prep.py:156-166). In the other three branches it stays all zero, so
  the featureless path 0-1-2 gives `[0, 0, 0, 0]`
  (`Scenarios.PathGraphIncidence`) and a single bond without node features
  gives `[0, 0]` (`Scenarios.SingleBondSample`).
- Malformed input is not rejected up front. An odd edge count is floored
  (`m = int(num_edges / 2)`). A short feature tensor, a missing node feature
  row or too many kept edges surface only as an `IndexError` at the first
  subscript that falls outside a tensor.
- The deduplication looks up only the reverse of an edge. A repeated directed
  edge is therefore kept again (`Incidence.KeptRepeatsEdge`), and a self-loop
  gives an incidence row with a single one.
- `mycollate` on a sample without `edge_attr` never binds `comp_edge_index`
  and raises `UnboundLocalError`.

## Model

| member | source | states |
|---|---|---|
| Tensors.PyIndex | data_prep/qm9_prep.py:131-132 | a tensor subscript k into a dimension of length len resolves exactly when -len <= k < len, to k or k + len, always inside the dimension |
| CompleteGraph.CompletePairs | data_prep/qm9_prep.py:17-19 | `comp_edges` has exactly n*(n-1) rows; that each row is an ordered pair of distinct nodes below n, and every such pair occurs at row PairIndex, is stated by `CompleteGraph.CompletePairsSpec` |
| CompleteGraph.CompletePairsSpec | data_prep/qm9_prep.py:17-19 | `comp_edges` has exactly n*(n-1) rows; each row is an ordered pair of distinct nodes below n sitting at its closed-form position PairIndex, and every such pair occurs there |
| CompleteGraph.CompletePairsRowMajor | data_prep/qm9_prep.py:19 | `nonzero()` lists the pairs in strictly increasing lexicographic (row-major) order |
| CompleteGraph.MatchingRows | data_prep/qm9_prep.py:24-25 | the intersection of the two `np.where` index sets holds exactly the rows whose pair equals the bond |
| CompleteGraph.MatchingRowsOfComplete | data_prep/qm9_prep.py:24-25 | the intersection of the two `np.where` index sets is the single row PairIndex(e) for a pair of distinct in-range nodes, and empty for a self-loop or an out-of-range node |
| CompleteGraph.NonPairEdgeIsNoOp | data_prep/qm9_prep.py:24-26 | assigning a bond that is not a pair of distinct in-range nodes leaves the dense features unchanged |
| CompleteGraph.LastIndexOf | data_prep/qm9_prep.py:23-26 | the reference for "last write wins": absent exactly when the pair is no bond, otherwise a position holding the pair after which the pair does not occur again |
| CompleteGraph.ScatterPrefix | data_prep/qm9_prep.py:21-26 | after `count` iterations the loop has raised, with IndexError, exactly when `count` exceeds the feature rows, and otherwise has one dense row per pair; `CompleteGraph.ScatterPrefixSpec` gives the rows' contents |
| CompleteGraph.ScatterPrefixSpec | data_prep/qm9_prep.py:21-26 | after `count` iterations the loop has raised exactly when `count` exceeds the feature rows, and the error is IndexError; otherwise every dense row is the feature of the last of the first `count` bonds equal to its pair, or zeros |
| CompleteGraph.MakeCompleteGraph | data_prep/qm9_prep.py:16-28 | fails, with IndexError, exactly when the feature tensor has fewer rows than the bond list; otherwise returns the complete pair list and n*(n-1) dense rows of the input width; `CompleteGraph.MakeCompleteGraphSpec` gives the rows' contents |
| CompleteGraph.MakeCompleteGraphSpec | data_prep/qm9_prep.py:16-28 | fails (IndexError) iff the feature tensor has fewer rows than the bond list; otherwise returns the complete pair list, n*(n-1) dense rows of the same width (rectangular if the input is), and the row of pair (i, j) is the last equal bond's feature or zeros |
| CompleteGraph.MakeCompleteGraphNonZeroRows | data_prep/qm9_prep.py:20-26 | a dense row whose pair is not a bond is the zero vector; when no bond feature is itself zero, a dense row is non-zero exactly when its pair occurs in the sparse edge list |
| Incidence.FirstIndexOf | data_prep/qm9_prep.py:144 | `np.where(...)[0][0]` finds nothing (so `[0]` raises) exactly when the edge is absent, and otherwise gives its first occurrence |
| Incidence.IncidenceRows | data_prep/qm9_prep.py:112-121 | on rectangular inputs both feature rows of an edge have the allocated column count: 1, D_e, D_n or D_n + D_e |
| Incidence.GetInhomoDataFeatureTable | data_prep/qm9_prep.py:135-166 | on success, the two feature rows of the k-th kept edge (s, d) are `[1]` twice without features; the node features of resolved s and d with node features only; and with edge features, the edge-feature row of the first occurrence of the edge (which always exists), after each endpoint's node feature when node features are present |
| Incidence.InitState | data_prep/qm9_prep.py:105-126 | the state before the loop: an empty seen set, both counters 0, m = num_edges div 2 zero incidence rows of width n, 2m zero feature rows and 2m zero neighbour entries |
| Incidence.Step | data_prep/qm9_prep.py:127-166 | an edge whose reverse was seen is skipped with the state unchanged; otherwise the edge joins the seen set, `edge_counter` advances by one, and the allocated shapes and `counter == 2 * edge_counter` are preserved |
| Incidence.RunPrefix | data_prep/qm9_prep.py:127-166 | the allocated shapes and the counter relation hold after every iteration |
| Incidence.Kept | data_prep/qm9_prep.py:127-130 | the scan keeps no more edges than it reads, and only edges it reads |
| Incidence.StepFromExpected | data_prep/qm9_prep.py:127-166 | from the closed-form state an iteration skips, or advances to the closed form with the edge appended, or raises IndexError when no row is left or a subscript is out of range |
| Incidence.RunPrefixSpec | data_prep/qm9_prep.py:123-166 | after `count` iterations the loop has raised IndexError exactly when some edge kept so far overflowed or had a bad subscript, and otherwise is in the closed-form state of the edges kept so far |
| Incidence.GetInhomoData | data_prep/qm9_prep.py:104-168 | the only exception is IndexError; on success there are m = num_edges div 2 incidence rows, 2m feature rows of the allocated column count and 2m neighbour entries; `Incidence.GetInhomoDataSpec` gives their contents |
| Incidence.GetInhomoDataClosedForm | data_prep/qm9_prep.py:104-168 | `get_inhomo_data` returns the closed-form tensors of the kept edges, or IndexError when a kept edge overflows or has a bad subscript |
| Incidence.GetInhomoDataSpec | data_prep/qm9_prep.py:104-168 | succeeds iff all kept edges fit and resolve, failing with IndexError otherwise; row k of `incident` is the unit row of the k-th kept edge (zeros past them); feature rows 2k, 2k+1 are that edge's two rows (zeros past them); `edge_neighbors` holds d, s in the both-features case and 0 otherwise; widths as allocated |
| Incidence.UnitRowColumns | data_prep/qm9_prep.py:131-132 | an incidence row has n entries, each 0 or 1, with a 1 exactly in column c when an endpoint equals c or c - n, i.e. resolves to c |
| Incidence.UnitRowSpec | data_prep/qm9_prep.py:131-132 | when both subscripts resolve, an incidence row has ones exactly at the two resolved endpoint columns, zeros elsewhere, and sums to 2 (1 when both resolve to one column) |
| Incidence.KeptNoReverse | data_prep/qm9_prep.py:128-130 | no kept edge is the reverse of an edge kept before it |
| Incidence.KeptCovers | data_prep/qm9_prep.py:127-130 | every input edge is kept or has its reverse kept |
| Incidence.KeptRepeatsEdge | data_prep/qm9_prep.py:128-130 | only the reverse is looked up: an edge that is not a self-loop and whose reverse was not kept is kept again each time it repeats |
| Incidence.KeptHalvesSymmetric | data_prep/qm9_prep.py:127-130 | on a list holding each bond once in each direction (no repeated edge, no self-loop, every reverse present) exactly one of every edge and its reverse is kept, so exactly half of the edges are kept; with repeats this fails (`Incidence.KeptRepeatsEdge`) |
| Incidence.RepeatedBondOverflows | data_prep/qm9_prep.py:105-133 | the list (0,1), (1,0), (0,1) with num_edges 3 keeps (0,1) twice, overflows the single allocated row and raises IndexError |
| LexPairs.KeptOfComplete | data_prep/qm9_prep.py:127-130 | on the complete pair list the scan keeps exactly the pairs (i, j), i < j, in lexicographic order |
| LexPairs.FirstIndexOfComplete | data_prep/qm9_prep.py:158 | on the complete pair list the `edge_idx` of pair (i, j) is its row PairIndex(i, j, n) |
| Collate.DensifiedShape | data_prep/qm9_prep.py:45-47 | the `CustomGraph` built by `mycollate` gets the complete pair list, num_edges = n*(n-1), the sample's nodes and node features, and dense edge features |
| Collate.DensifiedEdgeOk | data_prep/qm9_prep.py:156-166 | every pair i < j resolves all loop subscripts when node features cover the nodes, and its feature rows are each endpoint's node feature followed by the pair's dense feature |
| Collate.DensifiedKept | data_prep/qm9_prep.py:46 | the scan over the densified graph keeps the pairs i < j, exactly as many as the m = n*(n-1) div 2 rows allocated |
| Collate.DensifiedAllOk | data_prep/qm9_prep.py:41-47 | the scan over the densified graph raises nothing exactly when node features cover the nodes or there are fewer than two nodes |
| Collate.CollateSampleFails | data_prep/qm9_prep.py:41-47 | UnboundLocalError without `edge_attr`; otherwise success iff the edge features cover the bond list and node features (if any) cover the nodes of a graph with at least two nodes, IndexError else |
| Collate.CollateSampleShape | data_prep/qm9_prep.py:46-55 | the dictionary has m = n*(n-1)/2 incidence rows, 2m feature rows and neighbour entries, and the sample's labels |
| Collate.CollateSampleRow | data_prep/qm9_prep.py:46-55 | row k describes the k-th pair (i, j), i < j, in lexicographic order: unit incidence row, node feature of each endpoint followed by the pair's dense feature, neighbour j then i with node features and 0 without |
| Collate.CollateSample | data_prep/qm9_prep.py:33-55 | a sample without `edge_attr` always fails with UnboundLocalError; any other failure is IndexError; on success the labels pass through with two feature rows per incidence row; `Collate.CollateSampleSpec` gives the whole dictionary |
| Collate.CollateSampleSpec | data_prep/qm9_prep.py:33-55 | the composition theorem: the whole dictionary in closed form over the lexicographic pairs, including row sums of 2, ones exactly at the endpoints, and label pass-through |
| Collate.CollateSampleNeighbors | data_prep/qm9_prep.py:156-166 | with node features, the ones of incidence row k sit exactly at the endpoint that feature row 2k (resp. 2k+1) describes and at `edge_neigh[2k]` (resp. `[2k+1]`) |
| Collate.CollateSampleWidth | data_prep/qm9_prep.py:67-70 | `incident_features` has D_n + D_e columns (D_e without node features) and is rectangular when the inputs are |
| Scenarios.SingleBondSample | data_prep/qm9_prep.py:33-55 | two atoms bonded both ways with feature [5.0] and no atom features give `incident` [[1,1]], features [[5.0],[5.0]], `edge_neigh` [0,0] |
| Scenarios.ZeroFillSample | data_prep/qm9_prep.py:16-28 | three atoms with bond {0,1} give the six pairs in row order and dense rows [2],[0],[2],[0],[0],[0] |
| Scenarios.ThreeNodePairs | data_prep/qm9_prep.py:17-19 | the complete pair list of three nodes is (0,1), (0,2), (1,0), (1,2), (2,0), (2,1) |
| Scenarios.PathGraphKept | data_prep/qm9_prep.py:127-130 | on the path 0-1-2 listed both ways the scan keeps (0,1) and (1,2) |
| Scenarios.PathGraphIncidence | data_prep/qm9_prep.py:104-168 | the featureless path 0-1-2 gives incidence [[1,1,0],[0,1,1]], four feature rows [1], and neighbour index [0,0,0,0] |

## Left out

- The command-line script, the QM9 download, target normalisation, the
  train/validation/test split and the `DataLoader` wiring
  (qm9_prep.py:172-229). These are I/O and external libraries.
- `process_dataset`, `MyFilter` and `MyTransform`. They are I/O and
  dataset plumbing outside the core.
- `get_homo_data` (qm9_prep.py:75-102). Its only call is commented out
  (line 72).
- `torch.cat` of `pos` and `x` (line 42). It is an external library call;
  the node feature tensor is taken as given.
- `float32` arithmetic. Feature entries are `real`; no arithmetic is done
  on them.
- The float dtype of the neighbour index. The code stores it in a float
  tensor; here it is an `int` sequence holding the same values.
- Tensor broadcasting and shape-mismatch errors. Tensors are `Matrix` values
  whose rows may in principle be ragged, and width results are stated
  under the rectangularity hypothesis `WellFormed`.
- Batches. `mycollate` reads only `batch[0]`, which is modelled as the
  single sample.
- The label `y`. It is carried as an opaque vector.
- Collate.DensifiedEdgeOk: stated only for pairs with `i < j`, the only pairs
  the scan keeps on a complete graph (`LexPairs.KeptOfComplete`).
