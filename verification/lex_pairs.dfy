/**
 What the deduplicating scan keeps when it runs over the complete pair list:
 exactly the pairs (i, j) with i < j, in lexicographic order, n*(n-1)/2 of them.
 */
module LexPairs {
  import opened Tensors
  import opened CompleteGraph
  import opened Incidence

  /** Strict lexicographic order on pairs. */
  predicate LexLess(a: Edge, b: Edge) {
    a.0 < b.0 || (a.0 == b.0 && a.1 < b.1)
  }

  predicate LexSorted(s: seq<Edge>) {
    forall a, b :: 0 <= a < b < |s| ==> LexLess(s[a], s[b])
  }

  /** The pairs (i, j), i < j < len, by increasing j. */
  function UpperRow(i: nat, len: nat): seq<Edge> {
    if len == 0 then []
    else UpperRow(i, len - 1) + (if i < len - 1 then [(i, len - 1)] else [])
  }

  /** The pairs (i, j), i < r and i < j < n, in lexicographic order. */
  function UpperRows(n: nat, r: nat): seq<Edge> {
    if r == 0 then [] else UpperRows(n, r - 1) + UpperRow(r - 1, n)
  }

  /** Every pair (i, j) with 0 <= i < j < n, in lexicographic order. */
  function UpperPairs(n: nat): seq<Edge> {
    UpperRows(n, n)
  }

  /** The elements of s whose source is below their target, in order. */
  function Ascending(s: seq<Edge>): (r: seq<Edge>)
    ensures forall x :: x in r <==> x in s && x.0 < x.1
  {
    if |s| == 0 then []
    else Ascending(s[..|s| - 1]) + (if s[|s| - 1].0 < s[|s| - 1].1 then [s[|s| - 1]] else [])
  }

  lemma {:induction false} AscendingAppend(a: seq<Edge>, b: seq<Edge>)
    ensures Ascending(a + b) == Ascending(a) + Ascending(b)
  {
    if |b| == 0 {
      assert a + b == a;
    } else {
      var b' := b[..|b| - 1];
      assert (a + b)[..|a + b| - 1] == a + b';
      assert (a + b)[|a + b| - 1] == b[|b| - 1];
      AscendingAppend(a, b');
    }
  }

  // ---------------------------------------------------------------------------
  // Properties of UpperPairs
  // ---------------------------------------------------------------------------

  /** Cell k of UpperRow(i, len) is (i, i + 1 + k). */
  lemma {:induction false} UpperRowCells(i: nat, len: nat)
    ensures |UpperRow(i, len)| == if i < len then len - 1 - i else 0
    ensures forall k :: 0 <= k < |UpperRow(i, len)| ==> UpperRow(i, len)[k] == (i as int, i + 1 + k)
  {
    if len > 0 {
      UpperRowCells(i, len - 1);
      var prev := UpperRow(i, len - 1);
      forall k | 0 <= k < |UpperRow(i, len)| ensures UpperRow(i, len)[k] == (i as int, i + 1 + k) {
        if k < |prev| {
          assert UpperRow(i, len)[k] == prev[k];
        }
      }
    }
  }

  lemma UpperRowSpec(i: nat, len: nat)
    ensures |UpperRow(i, len)| == if i < len then len - 1 - i else 0
    ensures forall x :: x in UpperRow(i, len) <==> x.0 == i && i < x.1 < len
    ensures LexSorted(UpperRow(i, len))
  {
    UpperRowCells(i, len);
    var row := UpperRow(i, len);
    forall x: Edge | x.0 == i && i < x.1 < len ensures x in row {
      assert row[x.1 - i - 1] == x;
    }
  }

  lemma TriangleStep(n: int, r: int)
    ensures (r - 1) * (2 * n - 1 - (r - 1)) + 2 * (n - r) == r * (2 * n - 1 - r)
  {
    calc {
      (r - 1) * (2 * n - 1 - (r - 1)) + 2 * (n - r);
      (r - 1) * (2 * n - r) + 2 * n - 2 * r;
      r * (2 * n - r) - (2 * n - r) + 2 * n - 2 * r;
      r * (2 * n - r) - r;
      r * (2 * n - 1 - r);
    }
  }

  lemma {:induction false} UpperRowsLength(n: nat, r: nat)
    requires r <= n
    ensures 2 * |UpperRows(n, r)| == r * (2 * n - 1 - r)
  {
    if r > 0 {
      UpperRowsLength(n, r - 1);
      UpperRowCells(r - 1, n);
      var prev := |UpperRows(n, r - 1)|;
      assert |UpperRows(n, r)| == prev + (n - r);
      TriangleStep(n, r);
    }
  }

  /** Every cell of UpperRows(n, r) is a pair (i, j) with i < r and i < j < n. */
  lemma {:induction false} UpperRowsCells(n: nat, r: nat)
    ensures forall k :: 0 <= k < |UpperRows(n, r)| ==>
              0 <= UpperRows(n, r)[k].0 < r && UpperRows(n, r)[k].0 < UpperRows(n, r)[k].1 < n
  {
    if r > 0 {
      UpperRowsCells(n, r - 1);
      UpperRowCells(r - 1, n);
      var a: seq<Edge>, b: seq<Edge> := UpperRows(n, r - 1), UpperRow(r - 1, n);
      forall k: int | 0 <= k < |a + b| ensures 0 <= (a + b)[k].0 < r && (a + b)[k].0 < (a + b)[k].1 < n {
        if k < |a| {
          assert (a + b)[k] == a[k];
        } else {
          assert (a + b)[k] == b[k - |a|];
        }
      }
    }
  }

  /** Pair (i, j) with i < r and i < j < n occurs in UpperRows(n, r). */
  lemma {:induction false} UpperRowsHas(n: nat, r: nat, i: int, j: int)
    requires 0 <= i < r && i < j < n
    ensures (i, j) in UpperRows(n, r)
  {
    var a: seq<Edge>, b: seq<Edge> := UpperRows(n, r - 1), UpperRow(r - 1, n);
    assert UpperRows(n, r) == a + b;
    if i < r - 1 {
      UpperRowsHas(n, r - 1, i, j);
      var k :| 0 <= k < |a| && a[k] == (i, j);
      assert (a + b)[k] == (i, j);
    } else {
      UpperRowCells(r - 1, n);
      assert (a + b)[|a| + j - i - 1] == b[j - i - 1] == (i, j);
    }
  }

  lemma UpperRowsMembers(n: nat, r: nat)
    ensures forall x :: x in UpperRows(n, r) <==> 0 <= x.0 < r && x.0 < x.1 < n
  {
    UpperRowsCells(n, r);
    var s := UpperRows(n, r);
    forall x: Edge | x in s ensures 0 <= x.0 < r && x.0 < x.1 < n {
      var k :| 0 <= k < |s| && s[k] == x;
    }
    forall x: Edge | 0 <= x.0 < r && x.0 < x.1 < n ensures x in s {
      UpperRowsHas(n, r, x.0, x.1);
    }
  }

  lemma {:induction false} UpperRowsSorted(n: nat, r: nat)
    ensures LexSorted(UpperRows(n, r))
  {
    if r > 0 {
      UpperRowsSorted(n, r - 1);
      UpperRowsCells(n, r - 1);
      UpperRowCells(r - 1, n);
      var a: seq<Edge>, b: seq<Edge> := UpperRows(n, r - 1), UpperRow(r - 1, n);
      forall i, j | 0 <= i < j < |a + b| ensures LexLess((a + b)[i], (a + b)[j]) {
        if j < |a| {
          assert (a + b)[i] == a[i] && (a + b)[j] == a[j];
        } else if i >= |a| {
          assert (a + b)[i] == b[i - |a|] && (a + b)[j] == b[j - |a|];
        } else {
          assert (a + b)[i] == a[i];
          assert (a + b)[j] == b[j - |a|];
        }
      }
    }
  }

  lemma UpperPairsLength(n: nat)
    ensures 2 * |UpperPairs(n)| == n * (n - 1)
  {
    UpperRowsLength(n, n);
    assert 2 * n - 1 - n == n - 1;
  }

  /** UpperPairs(n) lists every pair (i, j) with 0 <= i < j < n, nothing else,
      strictly increasing in lexicographic order, n*(n-1)/2 of them. */
  lemma UpperPairsSpec(n: nat)
    ensures 2 * |UpperPairs(n)| == n * (n - 1)
    ensures forall x :: x in UpperPairs(n) <==> 0 <= x.0 < x.1 < n
    ensures LexSorted(UpperPairs(n))
  {
    UpperPairsLength(n);
    UpperRowsMembers(n, n);
    UpperRowsSorted(n, n);
  }

  // ---------------------------------------------------------------------------
  // The scan over the complete pair list
  // ---------------------------------------------------------------------------

  /** The ascending cells of one row of the complete adjacency matrix. */
  lemma {:induction false} AscendingRowNonZero(i: nat, len: nat)
    ensures Ascending(RowNonZero(i, AdjRow(i, len))) == UpperRow(i, len)
  {
    if len > 0 {
      var row := AdjRow(i, len);
      assert row[..len - 1] == AdjRow(i, len - 1);
      AscendingRowNonZero(i, len - 1);
      var tail := if row[len - 1] != 0.0 then [(i as int, len - 1)] else [];
      AscendingAppend(RowNonZero(i, AdjRow(i, len - 1)), tail);
      assert Ascending(tail) == if i < len - 1 then [(i as int, len - 1)] else [] by {
        if |tail| == 1 {
          assert tail[..0] == [];
        }
      }
    }
  }

  lemma {:induction false} AscendingNonZero(n: nat, r: nat)
    ensures Ascending(NonZero(AdjRows(n, r))) == UpperRows(n, r)
  {
    if r > 0 {
      NonZeroOfAdjRowsStep(n, r);
      AscendingNonZero(n, r - 1);
      AscendingRowNonZero(r - 1, n);
      AscendingAppend(NonZero(AdjRows(n, r - 1)), RowNonZero(r - 1, AdjRow(r - 1, n)));
    }
  }

  /** In the complete pair list the reverse of a descending pair sits at an earlier row. */
  lemma ReverseComesFirst(n: nat, e: Edge)
    requires IsPair(e, n) && e.1 < e.0
    ensures 0 <= PairIndex(e.1, e.0, n) < PairIndex(e.0, e.1, n)
  {
    PairIndexInBlock(e.1, e.0, n);
    PairIndexInBlock(e.0, e.1, n);
    MulMono(e.1 + 1, e.0, n - 1);
  }

  /** Row k of the complete pair list is a pair whose closed-form row is k. */
  lemma CompletePairAt(n: nat, k: int)
    requires 0 <= k < |CompletePairs(n)|
    ensures IsPair(CompletePairs(n)[k], n)
    ensures PairIndex(CompletePairs(n)[k].0, CompletePairs(n)[k].1, n) == k
  {
    CompletePairsSpec(n);
  }

  /** Pair (i, j) sits at row PairIndex(i, j, n) of the complete pair list. */
  lemma CompletePairsHas(n: nat, i: int, j: int)
    requires IsPair((i, j), n)
    ensures 0 <= PairIndex(i, j, n) < |CompletePairs(n)|
    ensures CompletePairs(n)[PairIndex(i, j, n)] == (i, j)
  {
    CompletePairsSpec(n);
  }

  /** On a prefix of the complete pair list the scan keeps exactly the
      ascending pairs: each (i, j) with i < j comes first, and each (j, i) with
      j > i finds (i, j) kept at an earlier row. */
  lemma {:induction false} KeptOfCompletePrefix(n: nat, count: nat)
    requires count <= |CompletePairs(n)|
    ensures Kept(CompletePairs(n)[..count]) == Ascending(CompletePairs(n)[..count])
  {
    if count > 0 {
      var pairs := CompletePairs(n);
      var prefix := pairs[..count - 1];
      var e := pairs[count - 1];
      assert pairs[..count] == prefix + [e];
      KeptOfCompletePrefix(n, count - 1);
      var prev := Kept(prefix);
      KeptSnoc(prefix, e);
      AscendingAppend(prefix, [e]);
      assert [e][..0] == [];
      CompletePairAt(n, count - 1);
      if e.1 < e.0 {
        ReverseComesFirst(n, e);
        CompletePairsHas(n, e.1, e.0);
        var k := PairIndex(e.1, e.0, n);
        assert prefix[k] == Reverse(e);
        assert Reverse(e) in prefix;
      } else {
        assert Reverse(e) !in prev;
      }
    }
  }

  /** On the complete pair list the scan keeps exactly UpperPairs(n). */
  lemma KeptOfComplete(n: nat)
    ensures Kept(CompletePairs(n)) == UpperPairs(n)
  {
    var pairs := CompletePairs(n);
    KeptOfCompletePrefix(n, |pairs|);
    assert pairs[..|pairs|] == pairs;
    AscendingNonZero(n, n);
  }

  /** The first row of the complete pair list equal to pair (i, j) is PairIndex(i, j, n). */
  lemma FirstIndexOfComplete(n: nat, i: int, j: int)
    requires IsPair((i, j), n)
    ensures FirstIndexOf(CompletePairs(n), (i, j)) == Some(PairIndex(i, j, n) as nat)
  {
    CompletePairsSpec(n);
    var pairs := CompletePairs(n);
    var k := PairIndex(i, j, n);
    assert pairs[k] == (i, j);
    var t := FirstIndexOf(pairs, (i, j)).value;
    assert pairs[t] == (i, j);
  }
}
