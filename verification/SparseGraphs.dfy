/** Compressed column storage and the graph it stores. */
module SparseGraphs {
  import opened Graphs
  import opened Permutations
  import opened Relabelling

  /** The rows of each column; column c is entry c - 1. */
  type Columns = seq<seq<nat>>

  function Rows(cols: Columns, c: nat): seq<nat>
    requires 0 < c <= |cols|
  {
    cols[c - 1]
  }

  /** Column pointers and row indices, numbered from `base` (0 or 1). */
  datatype Csc = Csc(base: nat, colptr: seq<nat>, rowind: seq<nat>) {

    ghost predicate Valid() {
      && |colptr| >= 1
      && colptr[0] == base
      && (forall i, j :: 0 <= i <= j < |colptr| ==> colptr[i] <= colptr[j])
      && colptr[|colptr| - 1] == base + |rowind|
    }

    /** The entries of the local column l (counted from 0). */
    ghost function Column(l: nat): seq<nat>
      requires Valid() && l < |colptr| - 1
    {
      assert colptr[0] <= colptr[l] <= colptr[l + 1] <= colptr[|colptr| - 1];
      rowind[colptr[l] - base..colptr[l + 1] - base]
    }

    ghost function Columns(): (cols: seq<seq<nat>>)
      requires Valid()
      ensures |cols| == |colptr| - 1
      ensures forall l :: 0 <= l < |cols| ==> cols[l] == Column(l)
    {
      seq(|colptr| - 1, l requires 0 <= l < |colptr| - 1 => Column(l))
    }
  }

  /** Column pointers and rows are determined by the base and the columns. */
  lemma CscDetermined(a: Csc, b: Csc)
    requires a.Valid() && b.Valid() && a.base == b.base && a.Columns() == b.Columns()
    ensures a == b
  {
    PointersDetermined(a, b, |a.colptr| - 1);
    assert a.colptr == b.colptr by {
      forall k | 0 <= k < |a.colptr| ensures a.colptr[k] == b.colptr[k] {
        PointersDetermined(a, b, k);
      }
    }
    forall p | 0 <= p < |a.rowind|
      ensures a.rowind[p] == b.rowind[p]
    {
      var l := ColumnOfEntry(a, p, |a.colptr| - 1);
      assert a.Columns()[l] == b.Columns()[l];
      assert a.Column(l)[p - (a.colptr[l] - a.base)] == a.rowind[p];
    }
  }

  lemma {:induction false} PointersDetermined(a: Csc, b: Csc, k: nat)
    requires a.Valid() && b.Valid() && a.base == b.base && a.Columns() == b.Columns() && k < |a.colptr|
    ensures |a.colptr| == |b.colptr| && a.colptr[k] == b.colptr[k]
  {
    assert |a.Columns()| == |b.Columns()|;
    if k > 0 {
      PointersDetermined(a, b, k - 1);
      assert a.Columns()[k - 1] == b.Columns()[k - 1];
      assert |a.Column(k - 1)| == a.colptr[k] - a.colptr[k - 1];
      assert |b.Column(k - 1)| == b.colptr[k] - b.colptr[k - 1];
    }
  }

  /** The column that holds the stored entry p, among the first k columns. */
  lemma {:induction false} ColumnOfEntry(a: Csc, p: nat, k: nat) returns (l: nat)
    requires a.Valid() && k < |a.colptr| && p < a.colptr[k] - a.base
    ensures l < k && a.colptr[l] - a.base <= p < a.colptr[l + 1] - a.base
  {
    if a.colptr[k - 1] - a.base <= p {
      l := k - 1;
    } else {
      l := ColumnOfEntry(a, p, k - 1);
    }
  }

  // ------------------------------------------------------------------------------------------
  // The edge relation of full (expanded) storage.
  // ------------------------------------------------------------------------------------------

  ghost predicate RowsWithin(cols: Columns, n: nat) {
    forall c: nat, r: nat :: Stored(cols, c, r) ==> 0 < r <= n
  }

  ghost predicate Stored(cols: Columns, c: nat, r: nat) {
    0 < c <= |cols| && r in Rows(cols, c)
  }

  ghost function EdgesOf(cols: Columns): (E: Edges)
    requires RowsWithin(cols, |cols|)
    ensures forall c: nat, r: nat :: (c, r) in E <==> Stored(cols, c, r)
  {
    var U := UpTo(|cols|);
    set c, r | c in U && r in U && Stored(cols, c, r) :: (c, r)
  }

  /** Full storage of a symmetric pattern. */
  ghost predicate Expanded(cols: Columns) {
    && RowsWithin(cols, |cols|)
    && forall c: nat, r: nat :: Stored(cols, c, r) ==> Stored(cols, r, c)
  }

  /** The columns in the order of the new labels, rows renamed: what the sequential overload reads. */
  ghost function PermutedColumns(cols: Columns, perm: seq<nat>, invp: seq<nat>): (r: Columns)
    requires |perm| == |invp| == |cols| + 1 && Inverses(invp, perm)
  {
    seq(|cols|, l requires 0 <= l < |cols| => Renamed(Rows(cols, perm[l + 1]), invp))
  }

  ghost function Renamed(rows: seq<nat>, invp: seq<nat>): (r: seq<nat>) {
    seq(|rows|, j requires 0 <= j < |rows| => if rows[j] < |invp| then invp[rows[j]] else 0)
  }

  /** An entry of the permuted columns comes from an edge. */
  lemma EntryIsEdge(cols: Columns, perm: seq<nat>, invp: seq<nat>, c: nat, r: nat)
    requires RowsWithin(cols, |cols|) && |perm| == |invp| == |cols| + 1 && Inverses(invp, perm)
    requires Stored(PermutedColumns(cols, perm, invp), c, r)
    ensures c < |perm| && 0 < r < |perm| && Stored(cols, perm[c], perm[r])
    ensures perm[c] < |invp| && perm[r] < |invp| && invp[perm[c]] == c && invp[perm[r]] == r
  {
    var rows := Rows(cols, perm[c]);
    var j :| 0 <= j < |rows| && Renamed(rows, invp)[j] == r;
    assert Stored(cols, perm[c], rows[j]);
  }

  /** An edge is an entry of the permuted columns. */
  lemma EdgeIsEntry(cols: Columns, perm: seq<nat>, invp: seq<nat>, a: nat, b: nat)
    requires RowsWithin(cols, |cols|) && |perm| == |invp| == |cols| + 1 && Inverses(invp, perm)
    requires Stored(cols, a, b)
    ensures b < |invp| && Stored(PermutedColumns(cols, perm, invp), invp[a], invp[b])
  {
    var rows := Rows(cols, a);
    var j :| 0 <= j < |rows| && rows[j] == b;
    assert perm[invp[a]] == a;
    assert Rows(PermutedColumns(cols, perm, invp), invp[a]) == Renamed(rows, invp);
    assert Renamed(rows, invp)[j] == invp[b];
  }

  lemma PermutedColumnsEdges(cols: Columns, perm: seq<nat>, invp: seq<nat>)
    requires RowsWithin(cols, |cols|) && |perm| == |invp| == |cols| + 1 && Inverses(invp, perm)
    ensures EdgesWithin(EdgesOf(cols), |cols|)
    ensures RowsWithin(PermutedColumns(cols, perm, invp), |cols|)
    ensures EdgesOf(PermutedColumns(cols, perm, invp)) == RelabelledEdges(EdgesOf(cols), invp)
  {
    var P := PermutedColumns(cols, perm, invp);
    var E := EdgesOf(cols);
    assert |P| == |cols|;
    InversesArePermutations(invp, perm);
    forall c, r | (c, r) in E
      ensures 0 < c <= |cols| && 0 < r <= |cols|
    {
      assert Stored(cols, c, r);
    }
    hide PermutedColumns, Inverses;
    var E' := RelabelledEdges(E, invp);
    forall c: nat, r: nat | Stored(P, c, r)
      ensures 0 < r <= |cols| && (c, r) in E'
    {
      EntryIsEdge(cols, perm, invp, c, r);
      RelabelledEdge(E, invp, perm[c], perm[r]);
    }
    assert RowsWithin(P, |P|);
    forall x | x in E'
      ensures x in EdgesOf(P)
    {
      var e :| e in E && x == (invp[e.0], invp[e.1]);
      assert e == (e.0, e.1);
      EdgeIsEntry(cols, perm, invp, e.0, e.1);
    }
  }

  // ------------------------------------------------------------------------------------------
  // What tree construction takes from the columns: a column with a single entry is skipped.
  // ------------------------------------------------------------------------------------------

  ghost predicate Taken(cols: Columns, i: nat, k: nat) {
    0 < k < i <= |cols| && |Rows(cols, i)| >= 2 && k in Rows(cols, i)
  }

  ghost function TakenEdges(cols: Columns): (E: Edges)
    ensures forall a: nat, b: nat :: (a, b) in E <==> Taken(cols, a, b) || Taken(cols, b, a)
  {
    var U := UpTo(|cols|);
    set a, b | a in U && b in U && (Taken(cols, a, b) || Taken(cols, b, a)) :: (a, b)
  }

  /** A single-entry column whose entry lies above the diagonal: an edge the construction misses. */
  ghost predicate MissesEdge(cols: Columns, i: nat) {
    0 < i <= |cols| && |Rows(cols, i)| == 1 && 0 < Rows(cols, i)[0] < i
  }

  /** Storing every diagonal entry rules those columns out. */
  lemma DiagonalStoredMissesNothing(cols: Columns)
    requires forall c :: 0 < c <= |cols| ==> Stored(cols, c, c)
    ensures forall i: nat :: !MissesEdge(cols, i)
  {
    forall i: nat
      ensures !MissesEdge(cols, i)
    {
      assert 0 < i <= |cols| ==> Stored(cols, i, i);
    }
  }
}
