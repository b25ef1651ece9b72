/** Storage of a run of consecutive columns, cut out of the storage of a whole graph. Numbering starts
    at 1; columns are counted from 0. */
module Slices {
  import opened Sequences
  import opened SparseGraphs
  import opened DistGraphs

  /** s stores the columns a .. b - 1 of g. */
  ghost predicate IsSlice(s: Csc, g: Csc, a: nat, b: nat) {
    && g.Valid() && g.base == 1 && s.base == 1 && a <= b < |g.colptr|
    && IsPointerSlice(s.colptr, g, a, b) && s.rowind == RowSlice(g, a, b)
  }

  ghost predicate IsPointerSlice(ptr: seq<nat>, g: Csc, a: nat, b: nat) {
    && a <= b < |g.colptr| && |ptr| == b - a + 1
    && forall i :: 0 <= i <= b - a ==> ptr[i] + g.colptr[a] == 1 + g.colptr[a + i]
  }

  /** The rows of the columns a .. b - 1. */
  ghost function RowSlice(g: Csc, a: nat, b: nat): (rows: seq<nat>)
    requires g.Valid() && g.base == 1 && a <= b < |g.colptr|
    ensures 1 <= g.colptr[a] <= g.colptr[b] <= |g.rowind| + 1 && |rows| == g.colptr[b] - g.colptr[a]
  {
    assert g.colptr[0] <= g.colptr[a] <= g.colptr[b] <= g.colptr[|g.colptr| - 1];
    g.rowind[g.colptr[a] - 1..g.colptr[b] - 1]
  }

  lemma RowSlicesJoin(g: Csc, a: nat, m: nat, b: nat)
    requires g.Valid() && g.base == 1 && a <= m <= b < |g.colptr|
    ensures RowSlice(g, a, m) + RowSlice(g, m, b) == RowSlice(g, a, b)
  {
    assert g.colptr[0] <= g.colptr[a] <= g.colptr[m] <= g.colptr[b] <= g.colptr[|g.colptr| - 1];
    SlicesJoin(g.rowind, g.colptr[a] - 1, g.colptr[m] - 1, g.colptr[b] - 1);
  }

  lemma SliceColumns(s: Csc, g: Csc, a: nat, b: nat)
    requires IsSlice(s, g, a, b)
    ensures s.Valid() && |s.Columns()| == b - a
    ensures forall l :: 0 <= l < b - a ==> s.Columns()[l] == g.Columns()[a + l]
  {
    var rows := RowSlice(g, a, b);
    forall l | 0 <= l < b - a ensures s.Column(l) == g.Column(a + l) {
      var from, to := s.colptr[l] - 1, s.colptr[l + 1] - 1;
      var at := g.colptr[a] - 1;
      assert g.colptr[0] <= g.colptr[a] <= g.colptr[a + l] <= g.colptr[a + l + 1] <= g.colptr[b];
      assert g.colptr[b] <= g.colptr[|g.colptr| - 1];
      SliceOfSlice(g.rowind, at, g.colptr[b] - 1, from, to);
    }
  }

  /** Every run of columns has its slice. */
  ghost function SliceOf(g: Csc, a: nat, b: nat): (s: Csc)
    requires g.Valid() && g.base == 1 && a <= b < |g.colptr|
    ensures IsSlice(s, g, a, b)
  {
    assert forall i :: a <= i <= b ==> g.colptr[a] <= g.colptr[i];
    Csc(1, seq(b - a + 1, i requires 0 <= i < b - a + 1 => 1 + g.colptr[a + i] - g.colptr[a]), RowSlice(g, a, b))
  }

  /** g stores the gathered graph. */
  ghost predicate Gathers(d: Dist, g: Csc) {
    d.Valid() && d.base == 1 && g.Valid() && g.base == 1 && g.Columns() == d.Gathered()
  }

  /** The storage of each rank is the slice of its block. */
  lemma RanksAreSlices(d: Dist, g: Csc, p: nat)
    requires Gathers(d, g) && p < |d.ranks|
    ensures 1 <= d.vertexDist[p] <= d.vertexDist[p + 1] <= |g.colptr|
    ensures IsSlice(d.ranks[p], g, d.vertexDist[p] - 1, d.vertexDist[p + 1] - 1)
  {
    d.RankColumns(p);
    assert d.RankValid(p);
    var a, b := d.vertexDist[p] - 1, d.vertexDist[p + 1] - 1;
    var s := SliceOf(g, a, b);
    SliceColumns(s, g, a, b);
    assert g.Valid() && g.base == 1;
    hide Csc.Valid, Csc.Column, SliceOf, Dist.Gathered, IsSplit;
    assert s.Columns() == d.ranks[p].Columns();
    CscDetermined(s, d.ranks[p]);
  }

  ghost predicate RankIsSlice(d: Dist, g: Csc, p: nat)
    requires p < |d.ranks| && |d.vertexDist| == |d.ranks| + 1
  {
    1 <= d.vertexDist[p] <= d.vertexDist[p + 1] && IsSlice(d.ranks[p], g, d.vertexDist[p] - 1, d.vertexDist[p + 1] - 1)
  }

  lemma SlicesAreValid(d: Dist, g: Csc)
    requires d.base == 1 && |d.ranks| >= 1 && IsSplit(d.vertexDist, 1, |d.ranks|)
    requires forall p :: 0 <= p < |d.ranks| ==> RankIsSlice(d, g, p)
    ensures d.Valid()
  {
    hide IsSlice;
    forall p | 0 <= p < |d.ranks| ensures d.RankValid(p) {
      assert RankIsSlice(d, g, p);
      SliceColumns(d.ranks[p], g, d.vertexDist[p] - 1, d.vertexDist[p + 1] - 1);
      SliceShape(d.ranks[p], g, d.vertexDist[p] - 1, d.vertexDist[p + 1] - 1);
    }
  }

  lemma SliceShape(s: Csc, g: Csc, a: nat, b: nat)
    requires IsSlice(s, g, a, b)
    ensures s.base == 1 && |s.colptr| == b - a + 1
  {
  }

  lemma SliceColumn(d: Dist, g: Csc, c: nat)
    requires d.Valid() && d.base == 1 && g.Valid() && |g.colptr| == d.Size() + 1 && c < d.Size()
    requires forall p :: 0 <= p < |d.ranks| ==> RankIsSlice(d, g, p)
    ensures d.Gathered()[c] == g.Columns()[c]
  {
    hide IsSlice, Csc.Valid, Csc.Columns, Csc.Column;
    OwnerExists(d.vertexDist, 1, |d.ranks|, c + 1, 0);
    var p := Owner(d.vertexDist, c + 1, 0);
    assert RankIsSlice(d, g, p) && d.RankValid(p);
    SliceColumns(d.ranks[p], g, d.vertexDist[p] - 1, d.vertexDist[p + 1] - 1);
    d.GatheredColumn(p, c + 1 - d.vertexDist[p]);
  }

  /** And the other way round: ranks that store slices gather to the whole. */
  lemma SlicesGather(d: Dist, g: Csc)
    requires d.base == 1 && |d.ranks| >= 1 && IsSplit(d.vertexDist, 1, |d.ranks|)
    requires g.Valid() && g.base == 1 && |g.colptr| == d.vertexDist[|d.ranks|]
    requires forall p :: 0 <= p < |d.ranks| ==> RankIsSlice(d, g, p)
    ensures Gathers(d, g)
  {
    hide RankIsSlice, Csc.Valid, Csc.Columns, Csc.Column;
    SlicesAreValid(d, g);
    forall c | 0 <= c < d.Size() ensures d.Gathered()[c] == g.Columns()[c] {
      SliceColumn(d, g, c);
    }
    assert |g.Columns()| == |d.Gathered()|;
  }

  // ---- Cutting one block by another split ----

  function Clamp(x: nat, from: nat, to: nat): nat { if x < from then from else if x > to then to else x }

  /** Where block p of a split (from 0) starts inside the columns from .. to - 1. */
  function Cut(split: seq<nat>, from: nat, to: nat, p: nat): (c: nat)
    requires from <= to && p < |split|
    ensures from <= c <= to
  {
    Clamp(split[p], from, to)
  }

  ghost predicate SplitsFromZero(split: seq<nat>, n: nat) {
    && |split| >= 2 && split[0] == 0 && split[|split| - 1] == n
    && forall i, j :: 0 <= i <= j < |split| ==> split[i] <= split[j]
  }

  lemma CutEnds(split: seq<nat>, n: nat, from: nat, to: nat)
    requires SplitsFromZero(split, n) && from <= to <= n
    ensures Cut(split, from, to, 0) == from && Cut(split, from, to, |split| - 1) == to
    ensures forall p, q :: 0 <= p <= q < |split| ==> Cut(split, from, to, p) <= Cut(split, from, to, q)
  {
  }
}
