/**
 Shared vocabulary of the QM9 preprocessing model: feature vectors, rank-2
 tensors, directed edges, and the failures that numpy/torch indexing raises.
 */
module Tensors {

  /** One row of a float tensor. No arithmetic is ever done on the entries. */
  type Vec = seq<real>

  /** A rank-2 tensor: its rows and its column count (`shape[1]`). */
  datatype Matrix = Matrix(rows: seq<Vec>, width: nat)

  /** A tensor is rectangular: every row has `width` entries. */
  predicate WellFormed(m: Matrix) {
    forall i :: 0 <= i < |m.rows| ==> |m.rows[i]| == m.width
  }

  /** A directed edge (source, target): one column of an `edge_index` tensor. */
  type Edge = (int, int)

  /** The edge with its direction flipped. */
  function Reverse(e: Edge): Edge {
    (e.1, e.0)
  }

  /** `torch.zeros(n)`: the zero vector of width n. */
  function Zeros(n: nat): Vec {
    seq(n, _ => 0.0)
  }

  datatype Option<T> = None | Some(value: T)

  /** The exceptions the modelled code can raise. */
  datatype Error =
    | IndexError          // a subscript outside a tensor dimension, or `[0]` of an empty array
    | UnboundLocalError   // a local read before any assignment bound it

  datatype Result<T> = Ok(value: T) | Err(error: Error)

  /** Resolves an integer subscript into a dimension of length `len` the way
      numpy and torch do: a negative subscript counts from the end, and one
      outside [-len, len) raises IndexError (None here). */
  function PyIndex(k: int, len: nat): (r: Option<nat>)
    ensures r.Some? <==> -(len as int) <= k < len
    ensures r.Some? ==> r.value < len && (r.value == k || r.value == k + len)
  {
    if 0 <= k < len then Some(k)
    else if -(len as int) <= k < 0 then Some(k + len)
    else None
  }

  /** True when the resolved subscript `o` designates position c. */
  predicate Hits(o: Option<nat>, c: int) {
    o.Some? && o.value == c
  }
}
