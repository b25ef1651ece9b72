/** The product of a symmetric matrix, of which only the lower triangle is stored, with a vector. Exact
    arithmetic stands for floating point. */
module SymmetricProducts {
  import opened SparseGraphs
  import opened DistGraphs

  datatype Element = Element(row: nat, val: real)

  /** Rank p stores values[p][q] at the row ranks[p].rowind[q]. Numbering starts at 1. */
  datatype Matrix = Matrix(graph: Dist, values: seq<seq<real>>) {

    ghost predicate Valid() {
      && graph.Valid() && graph.base == 1 && |values| == |graph.ranks|
      && forall p :: 0 <= p < |values| ==> |values[p]| == |graph.ranks[p].rowind|
    }

    ghost function Size(): nat
      requires Valid()
    {
      graph.Size()
    }

    /** The rank that stores column c. */
    function OwnerOf(c: nat): (p: nat)
      requires IsSplit(graph.vertexDist, graph.base, |graph.ranks|) && |graph.ranks| >= 1
      requires graph.base <= c < graph.vertexDist[|graph.ranks|]
      ensures p < |graph.ranks| && graph.vertexDist[p] <= c < graph.vertexDist[p + 1]
    {
      OwnerExists(graph.vertexDist, graph.base, |graph.ranks|, c, 0);
      Owner(graph.vertexDist, c, 0)
    }

    /** The stored entries of column c. */
    ghost function Column(c: nat): seq<Element>
      requires Valid() && 1 <= c <= Size()
    {
      var p := OwnerOf(c);
      assert graph.RankValid(p);
      EntriesOf(graph.ranks[p], values[p], c - graph.vertexDist[p])
    }
  }

  /** Only one rank's block holds a column. */
  lemma OwnerIsUnique(m: Matrix, p: nat, c: nat)
    requires m.Valid() && p < |m.graph.ranks| && m.graph.vertexDist[p] <= c < m.graph.vertexDist[p + 1]
    ensures 1 <= c <= m.Size() && m.OwnerOf(c) == p
  {
    var d := m.graph.vertexDist;
    assert d[0] <= d[p] && d[p + 1] <= d[|m.graph.ranks|];
    OwnerIs(d, m.graph.base, |m.graph.ranks|, c, 0, p);
  }

  ghost function EntriesOf(a: Csc, values: seq<real>, l: nat): (es: seq<Element>)
    requires a.Valid() && a.base == 1 && |values| == |a.rowind| && l + 1 < |a.colptr|
    ensures a.colptr[l] >= 1 && a.colptr[l + 1] <= 1 + |a.rowind|
    ensures |es| == a.colptr[l + 1] - a.colptr[l]
    ensures forall e :: 0 <= e < |es| ==>
      es[e] == Element(a.rowind[a.colptr[l] - 1 + e], values[a.colptr[l] - 1 + e])
  {
    assert a.colptr[0] <= a.colptr[l] <= a.colptr[l + 1] <= a.colptr[|a.colptr| - 1];
    seq(a.colptr[l + 1] - a.colptr[l], e requires 0 <= e < a.colptr[l + 1] - a.colptr[l] =>
      Element(a.rowind[a.colptr[l] - 1 + e], values[a.colptr[l] - 1 + e]))
  }

  // ---- What the kernel adds up ----

  /** The element of the vector at the 1-based position, 0 outside. */
  function At(x: seq<real>, i: nat): real { if 1 <= i <= |x| then x[i - 1] else 0.0 }

  /** What one stored entry adds to position i of the product: its own row, and the mirrored one. */
  function EntryPart(e: Element, c: nat, i: nat, x: seq<real>): real {
    (if e.row == i then At(x, c) * e.val else 0.0) + (if e.row > c && c == i then At(x, e.row) * e.val else 0.0)
  }

  function ColumnPart(es: seq<Element>, c: nat, i: nat, x: seq<real>): real
    decreases |es|
  {
    if es == [] then 0.0
    else ColumnPart(es[..|es| - 1], c, i, x) + EntryPart(es[|es| - 1], c, i, x)
  }

  /** The columns lo .. hi - 1. */
  ghost function BlockPart(m: Matrix, lo: nat, hi: nat, i: nat, x: seq<real>): real
    requires m.Valid() && 1 <= lo <= hi <= m.Size() + 1
    decreases hi - lo
  {
    if lo == hi then 0.0 else BlockPart(m, lo, hi - 1, i, x) + ColumnPart(m.Column(hi - 1), hi - 1, i, x)
  }

  lemma {:induction false} BlockPartJoins(m: Matrix, lo: nat, mid: nat, hi: nat, i: nat, x: seq<real>)
    requires m.Valid() && 1 <= lo <= mid <= hi <= m.Size() + 1
    ensures BlockPart(m, lo, hi, i, x) == BlockPart(m, lo, mid, i, x) + BlockPart(m, mid, hi, i, x)
    decreases hi
  {
    hide ColumnPart, Matrix.Valid, Matrix.Size, Matrix.Column;
    if mid < hi {
      BlockPartJoins(m, lo, mid, hi - 1, i, x);
    }
  }

  // ---- The full matrix ----

  /** The values stored for one row in a column. */
  function RowSum(es: seq<Element>, row: nat): real
    decreases |es|
  {
    if es == [] then 0.0
    else RowSum(es[..|es| - 1], row) + (if es[|es| - 1].row == row then es[|es| - 1].val else 0.0)
  }

  /** The element (i, j) of the symmetric matrix whose lower triangle is stored. */
  ghost function Full(m: Matrix, i: nat, j: nat): real
    requires m.Valid() && 1 <= i <= m.Size() && 1 <= j <= m.Size()
  {
    if i >= j then RowSum(m.Column(j), i) else RowSum(m.Column(i), j)
  }

  /** Row i of the matrix times x, over the columns 1 .. n. */
  ghost function RowTimes(m: Matrix, i: nat, x: seq<real>, n: nat): real
    requires m.Valid() && 1 <= i <= m.Size() && n <= m.Size()
  {
    if n == 0 then 0.0 else RowTimes(m, i, x, n - 1) + Full(m, i, n) * At(x, n)
  }

  /** A row without entries has the value 0 in the column, one with a single entry the value stored there. */
  lemma {:induction false} RowSumMeans(es: seq<Element>, row: nat, e: nat)
    requires e <= |es| && forall f :: 0 <= f < |es| && es[f].row == row ==> f == e
    ensures RowSum(es, row) == if e < |es| && es[e].row == row then es[e].val else 0.0
    decreases |es|
  {
    if es != [] {
      RowSumMeans(es[..|es| - 1], row, if e < |es| then e else |es| - 1);
    }
  }

  /** The full matrix is symmetric, and its lower triangle is what is stored. */
  lemma FullMeans(m: Matrix, i: nat, j: nat, e: nat)
    requires m.Valid() && 1 <= j <= i <= m.Size() && e <= |m.Column(j)|
    requires forall f :: 0 <= f < |m.Column(j)| && m.Column(j)[f].row == i ==> f == e
    ensures Full(m, i, j) == Full(m, j, i)
    ensures Full(m, i, j) == if e < |m.Column(j)| && m.Column(j)[e].row == i then m.Column(j)[e].val else 0.0
  {
    RowSumMeans(m.Column(j), i, e);
  }

  /** A row times the zero vector is zero, and adding d to position j of the vector adds d times the element
      in column j. */
  lemma {:induction false} RowTimesMeans(m: Matrix, i: nat, x: seq<real>, j: nat, d: real, n: nat)
    requires m.Valid() && 1 <= i <= m.Size() && n <= m.Size() && 1 <= j <= |x| && 1 <= j <= m.Size()
    ensures (forall k :: 0 <= k < |x| ==> x[k] == 0.0) ==> RowTimes(m, i, x, n) == 0.0
    ensures RowTimes(m, i, x[j - 1 := x[j - 1] + d], n)
      == RowTimes(m, i, x, n) + if j <= n then Full(m, i, j) * d else 0.0
    decreases n
  {
    hide Full;
    if n > 0 {
      RowTimesMeans(m, i, x, j, d, n - 1);
      if n == j {
        assert Full(m, i, n) * (x[j - 1] + d) == Full(m, i, n) * x[j - 1] + Full(m, i, n) * d;
      }
    }
  }

  /** All entries lie in the lower triangle, diagonal included. */
  ghost predicate LowerTriangular(m: Matrix)
    requires m.Valid()
  {
    forall c: nat :: 1 <= c <= m.Size() ==> LowerColumn(m.Column(c), c, m.Size())
  }

  ghost predicate LowerColumn(es: seq<Element>, c: nat, n: nat) {
    forall e :: 0 <= e < |es| ==> c <= es[e].row <= n
  }

  // ---- The kernel's sums are the product ----

  /** A column left of the diagonal adds its row i times x. */
  lemma {:induction false} LeftColumn(es: seq<Element>, c: nat, i: nat, x: seq<real>)
    requires c < i
    ensures ColumnPart(es, c, i, x) == RowSum(es, i) * At(x, c)
    decreases |es|
  {
    if es != [] {
      LeftColumn(es[..|es| - 1], c, i, x);
    }
  }

  /** A column right of the diagonal adds nothing. */
  lemma {:induction false} RightColumn(es: seq<Element>, c: nat, i: nat, x: seq<real>, n: nat)
    requires i < c && LowerColumn(es, c, n)
    ensures ColumnPart(es, c, i, x) == 0.0
    decreases |es|
  {
    if es != [] {
      RightColumn(es[..|es| - 1], c, i, x, n);
    }
  }

  /** Sum over j = i + 1 .. n of the values stored in one column at row j, times x. */
  function Mirrored(es: seq<Element>, i: nat, n: nat, x: seq<real>): real
    decreases n
  {
    if n <= i then 0.0 else Mirrored(es, i, n - 1, x) + RowSum(es, n) * At(x, n)
  }

  lemma {:induction false} MirroredEmpty(i: nat, n: nat, x: seq<real>)
    ensures Mirrored([], i, n, x) == 0.0
    decreases n
  {
    if n > i {
      MirroredEmpty(i, n - 1, x);
    }
  }

  lemma {:induction false} MirroredLast(es: seq<Element>, i: nat, n: nat, x: seq<real>)
    requires es != []
    ensures var e := es[|es| - 1];
      Mirrored(es, i, n, x) == Mirrored(es[..|es| - 1], i, n, x) + if i < e.row <= n then At(x, e.row) * e.val else 0.0
    decreases n
  {
    if n > i {
      MirroredLast(es, i, n - 1, x);
    }
  }

  /** The diagonal column adds its diagonal and, mirrored, everything below. */
  lemma {:induction false} DiagonalColumn(es: seq<Element>, i: nat, x: seq<real>, n: nat)
    requires LowerColumn(es, i, n)
    ensures ColumnPart(es, i, i, x) == RowSum(es, i) * At(x, i) + Mirrored(es, i, n, x)
    decreases |es|
  {
    hide Mirrored, At;
    if es == [] {
      MirroredEmpty(i, n, x);
    } else {
      DiagonalColumn(es[..|es| - 1], i, x, n);
      MirroredLast(es, i, n, x);
    }
  }

  lemma {:induction false} RowTimesRight(m: Matrix, i: nat, x: seq<real>, n: nat)
    requires m.Valid() && 1 <= i <= n <= m.Size()
    ensures RowTimes(m, i, x, n) == RowTimes(m, i, x, i) + Mirrored(m.Column(i), i, n, x)
    decreases n
  {
    hide RowSum, At, Matrix.Valid, Matrix.Column;
    if n > i {
      RowTimesRight(m, i, x, n - 1);
    }
  }

  /** Up to the diagonal column, and past it. */
  lemma {:induction false} BlockIsRow(m: Matrix, hi: nat, i: nat, x: seq<real>)
    requires m.Valid() && LowerTriangular(m) && 1 <= i <= m.Size() && 1 <= hi <= m.Size() + 1
    ensures BlockPart(m, 1, hi, i, x) == if hi <= i then RowTimes(m, i, x, hi - 1) else RowTimes(m, i, x, m.Size())
    decreases hi
  {
    hide ColumnPart, RowSum, Mirrored, LowerColumn, At, Matrix.Valid, Matrix.Column;
    if hi > 1 {
      var c := hi - 1;
      BlockIsRow(m, c, i, x);
      assert LowerColumn(m.Column(c), c, m.Size());
      if c < i {
        LeftColumn(m.Column(c), c, i, x);
        assert Full(m, i, c) == RowSum(m.Column(c), i);
      } else if c == i {
        DiagonalColumn(m.Column(c), i, x, m.Size());
        RowTimesRight(m, i, x, m.Size());
      } else {
        RightColumn(m.Column(c), c, i, x, m.Size());
      }
    }
  }

  /** What the first k ranks contribute. */
  ghost function RankSum(m: Matrix, k: nat, i: nat, x: seq<real>): real
    requires m.Valid() && k <= |m.graph.ranks|
  {
    if k == 0 then 0.0 else RankSum(m, k - 1, i, x) + RankPart(m, k - 1, i, x)
  }

  ghost function RankPart(m: Matrix, p: nat, i: nat, x: seq<real>): real
    requires m.Valid() && p < |m.graph.ranks|
  {
    var d := m.graph.vertexDist;
    assert d[0] <= d[p] <= d[p + 1] <= d[|m.graph.ranks|];
    BlockPart(m, d[p], d[p + 1], i, x)
  }

  lemma {:induction false} RanksJoin(m: Matrix, k: nat, i: nat, x: seq<real>)
    requires m.Valid() && k <= |m.graph.ranks|
    ensures m.graph.vertexDist[0] <= m.graph.vertexDist[k] <= m.graph.vertexDist[|m.graph.ranks|]
    ensures RankSum(m, k, i, x) == BlockPart(m, 1, m.graph.vertexDist[k], i, x)
    decreases k
  {
    var d := m.graph.vertexDist;
    assert d[0] <= d[k] <= d[|m.graph.ranks|];
    if k > 0 {
      RanksJoin(m, k - 1, i, x);
      assert d[k - 1] <= d[k];
      BlockPartJoins(m, 1, d[k - 1], d[k], i, x);
    }
  }

  /** However the columns are split over the ranks, the sum of what they add up is row i of the full
      symmetric matrix times x. */
  lemma SumOverRanksIsProduct(m: Matrix, i: nat, x: seq<real>)
    requires m.Valid() && LowerTriangular(m) && 1 <= i <= m.Size()
    ensures RankSum(m, |m.graph.ranks|, i, x) == RowTimes(m, i, x, m.Size())
  {
    hide BlockPart, RankSum, RowTimes, LowerTriangular;
    RanksJoin(m, |m.graph.ranks|, i, x);
    BlockIsRow(m, m.Size() + 1, i, x);
  }
}
