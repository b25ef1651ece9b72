/** The loops that multiply a half-stored symmetric matrix with a block of vectors, rank by rank. */
module Kernels {
  import opened SparseGraphs
  import opened DistGraphs
  import opened SymmetricProducts

  /** Vector k of a block is stored in the positions k * n .. k * n + n - 1. */
  function Pos(n: nat, i: nat, k: nat): nat
    requires i >= 1
  {
    i - 1 + k * n
  }

  lemma TimesIsMonotone(a: nat, b: nat, n: nat)
    requires a <= b
    ensures a * n <= b * n
  {
  }

  lemma PosInRange(n: nat, nrhs: nat, i: nat, k: nat)
    requires 1 <= i <= n && k < nrhs
    ensures Pos(n, i, k) < n * nrhs
  {
    TimesIsMonotone(k + 1, nrhs, n);
  }

  lemma PosAscends(n: nat, i: nat, k: nat, i': nat, k': nat)
    requires 1 <= i <= n && 1 <= i' && k < k'
    ensures Pos(n, i, k) < Pos(n, i', k')
  {
    TimesIsMonotone(k + 1, k', n);
  }

  lemma PosIsInjective(n: nat, i: nat, k: nat, i': nat, k': nat)
    requires 1 <= i <= n && 1 <= i' <= n && Pos(n, i, k) == Pos(n, i', k')
    ensures i == i' && k == k'
  {
    if k < k' {
      PosAscends(n, i, k, i', k');
    } else if k' < k {
      PosAscends(n, i', k', i, k);
    }
  }

  ghost predicate IsBlock(x: seq<real>, n: nat, nrhs: nat) { |x| == n * nrhs }

  ghost function Vec(x: seq<real>, n: nat, nrhs: nat, k: nat): (v: seq<real>)
    requires IsBlock(x, n, nrhs) && k < nrhs
    ensures |v| == n
    ensures forall i :: 1 <= i <= n ==> Pos(n, i, k) < |x| && At(v, i) == x[Pos(n, i, k)]
  {
    assert (k + 1) * n <= nrhs * n;
    x[k * n..(k + 1) * n]
  }

  /** One position of one vector of the block. */
  ghost function Elem(a: seq<real>, n: nat, nrhs: nat, i: nat, k: nat): real
    requires IsBlock(a, n, nrhs) && 1 <= i <= n && k < nrhs
  {
    PosInRange(n, nrhs, i, k);
    a[Pos(n, i, k)]
  }

  lemma SamePos(n: nat, i: nat, k: nat, i': nat, k': nat)
    requires 1 <= i <= n && 1 <= i' <= n
    ensures Pos(n, i, k) == Pos(n, i', k') <==> i == i' && k == k'
  {
    if Pos(n, i, k) == Pos(n, i', k') {
      PosIsInjective(n, i, k, i', k');
    }
  }

  /** The block with one position overwritten. */
  ghost function Put(a: seq<real>, n: nat, nrhs: nat, i: nat, k: nat, v: real): (b: seq<real>)
    requires IsBlock(a, n, nrhs) && 1 <= i <= n && k < nrhs
    ensures IsBlock(b, n, nrhs)
  {
    PosInRange(n, nrhs, i, k);
    a[Pos(n, i, k) := v]
  }

  lemma ElemOfPut(a: seq<real>, n: nat, nrhs: nat, i: nat, k: nat, v: real, i': nat, k': nat)
    requires IsBlock(a, n, nrhs) && 1 <= i <= n && k < nrhs && 1 <= i' <= n && k' < nrhs
    ensures Elem(Put(a, n, nrhs, i, k, v), n, nrhs, i', k') ==
      if i' == i && k' == k then v else Elem(a, n, nrhs, i', k')
  {
    PosInRange(n, nrhs, i', k');
    PosInRange(n, nrhs, i, k);
    SamePos(n, i, k, i', k');
    hide Pos;
  }

  lemma ElemAfter(a: seq<real>, n: nat, nrhs: nat, i: nat, k: nat, v: real)
    requires IsBlock(a, n, nrhs) && 1 <= i <= n && k < nrhs
    ensures Pos(n, i, k) < |a| && Put(a, n, nrhs, i, k, v) == a[Pos(n, i, k) := v]
    ensures forall i': nat, k': nat :: 1 <= i' <= n && k' < nrhs ==>
      Elem(Put(a, n, nrhs, i, k, v), n, nrhs, i', k') == if i' == i && k' == k then v else Elem(a, n, nrhs, i', k')
  {
    PosInRange(n, nrhs, i, k);
    forall i': nat, k': nat | 1 <= i' <= n && k' < nrhs
      ensures Elem(Put(a, n, nrhs, i, k, v), n, nrhs, i', k') ==
        if i' == i && k' == k then v else Elem(a, n, nrhs, i', k')
    {
      ElemOfPut(a, n, nrhs, i, k, v, i', k');
    }
  }

  /** The vectors lie one after the other. */
  lemma BlockLayout(x: seq<real>, n: nat, nrhs: nat, i: nat, k: nat)
    requires |x| == n * nrhs && 1 <= i <= n && k < nrhs
    ensures k * n + i - 1 < |x|
    ensures Elem(x, n, nrhs, i, k) == At(Vec(x, n, nrhs, k), i) == x[k * n + i - 1]
  {
    PosInRange(n, nrhs, i, k);
  }

  lemma ElemIs(a: seq<real>, n: nat, nrhs: nat, i: nat, k: nat)
    requires IsBlock(a, n, nrhs) && 1 <= i <= n && k < nrhs
    ensures Pos(n, i, k) < |a| && Elem(a, n, nrhs, i, k) == a[Pos(n, i, k)]
  {
    PosInRange(n, nrhs, i, k);
  }

  method AddTo(a: array<real>, n: nat, nrhs: nat, i: nat, k: nat, delta: real)
    requires IsBlock(a[..], n, nrhs) && 1 <= i <= n && k < nrhs
    modifies a
    ensures IsBlock(a[..], n, nrhs)
    ensures forall i': nat, k': nat :: 1 <= i' <= n && k' < nrhs ==>
      Elem(a[..], n, nrhs, i', k') == Elem(old(a[..]), n, nrhs, i', k') + if i' == i && k' == k then delta else 0.0
  {
    hide Pos, Elem, Put;
    ghost var a0 := a[..];
    ElemIs(a[..], n, nrhs, i, k);
    ElemAfter(a[..], n, nrhs, i, k, a[Pos(n, i, k)] + delta);
    a[Pos(n, i, k)] := a[Pos(n, i, k)] + delta;
    assert a[..] == Put(a0, n, nrhs, i, k, a0[Pos(n, i, k)] + delta);
  }

  /** One stored entry, for one vector: its own row and, below the diagonal, the mirrored one. */
  method AddEntry(a: array<real>, n: nat, nrhs: nat, k: nat, row: nat, val: real, j: nat, x: seq<real>)
    requires IsBlock(a[..], n, nrhs) && IsBlock(x, n, nrhs) && k < nrhs && 1 <= row <= n && 1 <= j <= n
    modifies a
    ensures IsBlock(a[..], n, nrhs)
    ensures forall i: nat, k': nat :: 1 <= i <= n && k' < nrhs ==>
      Elem(a[..], n, nrhs, i, k') == Elem(old(a[..]), n, nrhs, i, k')
        + if k' == k then EntryPart(Element(row, val), j, i, Vec(x, n, nrhs, k)) else 0.0
  {
    hide Pos, Elem, IsBlock;
    ghost var v := Vec(x, n, nrhs, k);
    ElemIs(x, n, nrhs, j, k);
    ElemIs(x, n, nrhs, row, k);
    AddTo(a, n, nrhs, row, k, x[Pos(n, j, k)] * val);
    if row > j {
      AddTo(a, n, nrhs, j, k, x[Pos(n, row, k)] * val);
    }
  }

  // ---- How far a rank has got ----

  /** One rank's share of a product: the matrix, the rank, and the block x of nrhs vectors. */
  datatype Work = Work(m: Matrix, p: nat, n: nat, nrhs: nat, x: seq<real>) {

    ghost predicate Valid() {
      && m.Valid() && LowerTriangular(m) && n == m.Size() && p < |m.graph.ranks| && IsBlock(x, n, nrhs)
    }

    ghost predicate InBlock(c: nat) {
      && p < |m.graph.ranks| && |m.graph.vertexDist| == |m.graph.ranks| + 1
      && 1 <= m.graph.vertexDist[p] <= c <= m.graph.vertexDist[p + 1] <= n + 1
    }

    /** c is one of the rank's columns. */
    ghost predicate Owns(c: nat) { InBlock(c) && c < m.graph.vertexDist[p + 1] }

    /** The rank's columns before c and the first e entries of column c. */
    ghost function Sofar(c: nat, e: nat, i: nat, k: nat): real
      requires Valid() && InBlock(c) && k < nrhs && (e > 0 ==> c <= n && e <= |m.Column(c)|)
    {
      var v := Vec(x, n, nrhs, k);
      BlockPart(m, m.graph.vertexDist[p], c, i, v) + if e == 0 then 0.0 else ColumnPart(m.Column(c)[..e], c, i, v)
    }

    /** Every row of vector k holds what has been added so far. */
    ghost predicate VectorAt(a: seq<real>, k: nat, c: nat, e: nat) {
      && Valid() && IsBlock(a, n, nrhs) && k < nrhs && InBlock(c) && (e > 0 ==> c <= n && e <= |m.Column(c)|)
      && forall i: nat :: 1 <= i <= n ==> Elem(a, n, nrhs, i, k) == Sofar(c, e, i, k)
    }

    /** The vectors before upto are one entry ahead of the others. */
    ghost predicate AllAt(a: seq<real>, c: nat, e: nat, upto: nat) {
      && IsBlock(a, n, nrhs)
      && forall k: nat :: k < nrhs ==> VectorAt(a, k, c, Ahead(k, upto, e))
    }
  }

  function Ahead(k: nat, upto: nat, e: nat): nat { if k < upto then e + 1 else e }

  lemma OwnedColumns(w: Work)
    requires w.Valid()
    ensures w.InBlock(w.m.graph.vertexDist[w.p]) && w.InBlock(w.m.graph.vertexDist[w.p + 1])
  {
    var d := w.m.graph.vertexDist;
    assert d[0] <= d[w.p] <= d[w.p + 1] <= d[|w.m.graph.ranks|];
  }

  lemma NextEntry(w: Work, c: nat, e: nat, i: nat, k: nat)
    requires w.Valid() && w.Owns(c) && k < w.nrhs && e < |w.m.Column(c)|
    ensures w.Sofar(c, e + 1, i, k) == w.Sofar(c, e, i, k) + EntryPart(w.m.Column(c)[e], c, i, Vec(w.x, w.n, w.nrhs, k))
  {
    hide BlockPart, LowerTriangular, IsBlock, Vec, EntryPart, ColumnPart;
    var es, v := w.m.Column(c), Vec(w.x, w.n, w.nrhs, k);
    var block, entries, entry := BlockPart(w.m, w.m.graph.vertexDist[w.p], c, i, v), ColumnPart(es[..e], c, i, v),
      EntryPart(es[e], c, i, v);
    OneMoreEntry(es, e, c, i, v);
    NoEntries(es[..e], c, i, v);
    assert w.Sofar(c, e + 1, i, k) == block + (entries + entry);
    assert w.Sofar(c, e, i, k) == block + entries;
  }

  lemma OneMoreEntry(es: seq<Element>, e: nat, c: nat, i: nat, x: seq<real>)
    requires e < |es|
    ensures ColumnPart(es[..e + 1], c, i, x) == ColumnPart(es[..e], c, i, x) + EntryPart(es[e], c, i, x)
  {
    hide EntryPart;
    assert es[..e + 1][..e] == es[..e];
  }

  lemma NextColumn(w: Work, c: nat, i: nat, k: nat)
    requires w.Valid() && w.Owns(c) && k < w.nrhs
    ensures w.Sofar(c, |w.m.Column(c)|, i, k) == w.Sofar(c + 1, 0, i, k)
  {
    hide ColumnPart, EntryPart, LowerTriangular, IsBlock, Vec;
    var es := w.m.Column(c);
    assert es[..|es|] == es;
    NoEntries(es, c, i, Vec(w.x, w.n, w.nrhs, k));
  }

  lemma NoEntries(es: seq<Element>, c: nat, i: nat, x: seq<real>)
    ensures es == [] ==> ColumnPart(es, c, i, x) == 0.0
  {
  }

  lemma ColumnDone(w: Work, a: seq<real>, k: nat, c: nat)
    requires w.Valid() && w.Owns(c) && w.VectorAt(a, k, c, |w.m.Column(c)|)
    ensures w.VectorAt(a, k, c + 1, 0)
  {
    hide Elem, IsBlock, LowerTriangular;
    forall i: nat | 1 <= i <= w.n
      ensures Elem(a, w.n, w.nrhs, i, k) == w.Sofar(c + 1, 0, i, k)
    {
      NextColumn(w, c, i, k);
    }
  }

  lemma ColumnDoneForAll(w: Work, a: seq<real>, c: nat)
    requires w.Valid() && w.Owns(c) && w.AllAt(a, c, |w.m.Column(c)|, 0)
    ensures w.AllAt(a, c + 1, 0, 0)
  {
    hide LowerTriangular;
    forall k: nat | k < w.nrhs ensures w.VectorAt(a, k, c + 1, Ahead(k, 0, 0)) {
      assert w.VectorAt(a, k, c, Ahead(k, 0, |w.m.Column(c)|));
      ColumnDone(w, a, k, c);
    }
  }

  /** The slots of an owned column in the rank's storage. */
  lemma ColumnSlots(w: Work, j: nat)
    requires w.Valid() && w.Owns(j)
    ensures w.p < |w.m.graph.ranks| == |w.m.values| && |w.m.graph.vertexDist| == |w.m.graph.ranks| + 1
    ensures w.m.graph.vertexDist[w.p] <= j
    ensures var g, l := w.m.graph.ranks[w.p], j - w.m.graph.vertexDist[w.p];
      && l + 1 < |g.colptr| && 1 <= g.colptr[l] <= g.colptr[l + 1] <= |g.rowind| + 1
      && |w.m.Column(j)| == g.colptr[l + 1] - g.colptr[l] && |w.m.values[w.p]| == |g.rowind|
      && forall e :: 0 <= e < |w.m.Column(j)| ==>
           && w.m.Column(j)[e] == Element(g.rowind[g.colptr[l] - 1 + e], w.m.values[w.p][g.colptr[l] - 1 + e])
           && 1 <= w.m.Column(j)[e].row <= w.n
  {
    OwnerIsUnique(w.m, w.p, j);
    assert w.m.graph.RankValid(w.p);
    assert LowerColumn(w.m.Column(j), j, w.n);
    var g, l := w.m.graph.ranks[w.p], j - w.m.graph.vertexDist[w.p];
    assert g.colptr[0] <= g.colptr[l] <= g.colptr[l + 1] <= g.colptr[|g.colptr| - 1];
  }

  lemma VectorKept(w: Work, a: seq<real>, b: seq<real>, k: nat, c: nat, e: nat)
    requires w.VectorAt(a, k, c, e) && IsBlock(b, w.n, w.nrhs)
    requires forall i: nat :: 1 <= i <= w.n ==> Elem(b, w.n, w.nrhs, i, k) == Elem(a, w.n, w.nrhs, i, k)
    ensures w.VectorAt(b, k, c, e)
  {
  }

  /** Adding the next entry of a column moves one vector on and leaves the others. */
  method AddNext(w: Work, a: array<real>, k: nat, j: nat, e: nat, row: nat, val: real)
    requires w.VectorAt(a[..], k, j, e) && w.Owns(j) && e < |w.m.Column(j)|
    requires w.m.Column(j)[e] == Element(row, val) && 1 <= row <= w.n
    modifies a
    ensures w.VectorAt(a[..], k, j, e + 1)
    ensures forall k': nat, c: nat, f: nat :: k' != k && w.VectorAt(old(a[..]), k', c, f) ==>
      w.VectorAt(a[..], k', c, f)
  {
    hide Elem, IsBlock, EntryPart, LowerTriangular, Vec;
    ghost var before := a[..];
    AddEntry(a, w.n, w.nrhs, k, row, val, j, w.x);
    forall i: nat | 1 <= i <= w.n
      ensures Elem(a[..], w.n, w.nrhs, i, k) == w.Sofar(j, e + 1, i, k)
    {
      NextEntry(w, j, e, i, k);
    }
    forall k': nat, c: nat, f: nat | k' != k && w.VectorAt(before, k', c, f) ensures w.VectorAt(a[..], k', c, f) {
      VectorKept(w, before, a[..], k', c, f);
    }
  }

  // ---- generate_rhs ----

  /** One entry for one vector, the vectors before it being ahead. */
  method RhsEntry(w: Work, rhs: array<real>, k: nat, j: nat, e: nat, row: nat, val: real)
    requires w.Valid() && w.Owns(j) && w.AllAt(rhs[..], j, e, k) && k < w.nrhs && e < |w.m.Column(j)|
    requires w.m.Column(j)[e] == Element(row, val) && 1 <= row <= w.n
    modifies rhs
    ensures w.AllAt(rhs[..], j, e, k + 1)
  {
    hide LowerTriangular, Work.VectorAt;
    ghost var before := rhs[..];
    assert w.VectorAt(before, k, j, Ahead(k, k, e));
    AddNext(w, rhs, k, j, e, row, val);
    ghost var next := k + 1;
    IsBlockAt(w, rhs[..], k, j, e + 1);
    forall k': nat | k' < w.nrhs ensures w.VectorAt(rhs[..], k', j, Ahead(k', next, e)) {
      assert w.VectorAt(before, k', j, Ahead(k', k, e));
    }
  }

  lemma IsBlockAt(w: Work, a: seq<real>, k: nat, c: nat, e: nat)
    requires w.VectorAt(a, k, c, e)
    ensures IsBlock(a, w.n, w.nrhs)
  {
  }

  /** One owned column: entries outside, vectors inside. */
  method RhsColumn(w: Work, rhs: array<real>, j: nat)
    requires w.Valid() && w.Owns(j) && w.AllAt(rhs[..], j, 0, 0)
    modifies rhs
    ensures w.AllAt(rhs[..], j + 1, 0, 0)
  {
    hide *;
    ColumnSlots(w, j);
    var g := w.m.graph.ranks[w.p];
    var iLocal := j - w.m.graph.vertexDist[w.p];
    var colbeg, colend := g.colptr[iLocal], g.colptr[iLocal + 1];
    var nnz := colend - colbeg;
    for ii := 0 to nnz
      invariant w.AllAt(rhs[..], j, ii, 0)
    {
      for k := 0 to w.nrhs
        invariant w.AllAt(rhs[..], j, ii, k)
      {
        RhsEntry(w, rhs, k, j, ii, g.rowind[colbeg - 1 + ii], w.m.values[w.p][colbeg - 1 + ii]);
      }
      AllAhead(w, rhs[..], j, ii);
    }
    ColumnDoneForAll(w, rhs[..], j);
  }

  lemma AllAhead(w: Work, a: seq<real>, c: nat, e: nat)
    requires w.AllAt(a, c, e, w.nrhs)
    ensures w.AllAt(a, c, e + 1, 0)
  {
    var f := e + 1;
    forall k: nat | k < w.nrhs ensures w.VectorAt(a, k, c, Ahead(k, 0, f)) {
      assert w.VectorAt(a, k, c, Ahead(k, w.nrhs, e));
    }
  }

  /** The first column that the rank has not gone through when the loop over all columns is at j. */
  function Reached(w: Work, j: nat): nat
    requires w.p + 1 < |w.m.graph.vertexDist|
  {
    var lo, hi := w.m.graph.vertexDist[w.p], w.m.graph.vertexDist[w.p + 1];
    if j < lo then lo else if j > hi then hi else j
  }

  /** The rank's part of the product, before the reduction. */
  ghost predicate IsShare(w: Work, a: seq<real>) {
    && w.Valid() && IsBlock(a, w.n, w.nrhs)
    && forall i: nat, k: nat :: 1 <= i <= w.n && k < w.nrhs ==>
      Elem(a, w.n, w.nrhs, i, k) == RankPart(w.m, w.p, i, Vec(w.x, w.n, w.nrhs, k))
  }

  lemma ZeroBlock(w: Work, a: seq<real>)
    requires w.Valid() && IsBlock(a, w.n, w.nrhs) && forall q :: 0 <= q < |a| ==> a[q] == 0.0
    ensures w.AllAt(a, w.m.graph.vertexDist[w.p], 0, 0)
  {
    OwnedColumns(w);
    forall k: nat | k < w.nrhs ensures w.VectorAt(a, k, w.m.graph.vertexDist[w.p], Ahead(k, 0, 0)) {
      forall i: nat | 1 <= i <= w.n
        ensures Elem(a, w.n, w.nrhs, i, k) == w.Sofar(w.m.graph.vertexDist[w.p], 0, i, k)
      {
        PosInRange(w.n, w.nrhs, i, k);
      }
    }
  }

  lemma BlockDone(w: Work, a: seq<real>)
    requires w.Valid() && w.AllAt(a, w.m.graph.vertexDist[w.p + 1], 0, 0)
    ensures IsShare(w, a)
  {
    hide LowerTriangular;
    forall i: nat, k: nat | 1 <= i <= w.n && k < w.nrhs
      ensures Elem(a, w.n, w.nrhs, i, k) == RankPart(w.m, w.p, i, Vec(w.x, w.n, w.nrhs, k))
    {
      assert w.VectorAt(a, k, w.m.graph.vertexDist[w.p + 1], Ahead(k, 0, 0));
    }
  }

  /** generate_rhs on one rank: goes through all columns, looks up the owner of each, and adds up the
      columns it owns. */
  method LocalRhs(w: Work) returns (rhs: array<real>)
    requires w.Valid()
    ensures fresh(rhs) && IsShare(w, rhs[..])
  {
    hide LowerTriangular, w.AllAt, IsShare;
    var d, np := w.m.graph.vertexDist, |w.m.graph.ranks|;
    rhs := new real[w.n * w.nrhs];
    for q := 0 to rhs.Length
      invariant forall r :: 0 <= r < q ==> rhs[r] == 0.0
    {
      rhs[q] := 0.0;
    }
    ZeroBlock(w, rhs[..]);
    OwnedColumns(w);
    for j := 1 to w.n + 1
      invariant w.AllAt(rhs[..], Reached(w, j), 0, 0)
    {
      var iOwner := 0;
      while iOwner < np && !(d[iOwner] <= j < d[iOwner + 1])
        invariant iOwner <= np
        invariant forall q :: 0 <= q < iOwner ==> !(d[q] <= j < d[q + 1])
      {
        iOwner := iOwner + 1;
      }
      OwnerFound(w, j, iOwner);
      if w.p == iOwner {
        RhsColumn(w, rhs, j);
      }
    }
    BlockDone(w, rhs[..]);
  }

  /** The scan finds this rank exactly for the columns it owns. */
  lemma OwnerFound(w: Work, j: nat, o: nat)
    requires w.Valid() && 1 <= j <= w.n && o <= |w.m.graph.ranks|
    requires forall q :: 0 <= q < o ==> !(w.m.graph.vertexDist[q] <= j < w.m.graph.vertexDist[q + 1])
    requires o < |w.m.graph.ranks| ==> w.m.graph.vertexDist[o] <= j < w.m.graph.vertexDist[o + 1]
    ensures o == w.p <==> w.Owns(j)
    ensures Reached(w, j + 1) == if o == w.p then j + 1 else Reached(w, j)
    ensures o == w.p ==> Reached(w, j) == j
  {
    OwnedColumns(w);
    var d := w.m.graph.vertexDist;
    if w.Owns(j) {
      OwnerIsUnique(w.m, w.p, j);
      if o < |w.m.graph.ranks| {
        OwnerIsUnique(w.m, o, j);
      }
    }
  }

  // ---- check_solution ----

  /** check_solution on one rank: vectors outside, the rank's own columns inside. */
  method LocalAx(w: Work) returns (ax: array<real>)
    requires w.Valid()
    ensures fresh(ax) && IsShare(w, ax[..])
  {
    hide LowerTriangular, w.VectorAt, IsShare, IsBlock;
    var d := w.m.graph.vertexDist;
    var firstCol, lastCol := d[w.p], d[w.p + 1];
    ax := ZeroArray(w);
    OwnedColumns(w);
    for k := 0 to w.nrhs
      invariant PassesAt(w, ax[..], k)
    {
      StartPass(w, ax[..], k);
      for j := 1 to w.n + 1
        invariant w.VectorAt(ax[..], k, Reached(w, j), 0)
        invariant OthersAt(w, ax[..], k)
      {
        if firstCol <= j < lastCol {
          AxColumn(w, ax, k, j);
        }
      }
      EndPass(w, ax[..], k);
    }
    forall k: nat | k < w.nrhs ensures w.VectorAt(ax[..], k, lastCol, Ahead(k, 0, 0)) {
      assert PassAt(w, ax[..], k, w.nrhs);
    }
    BlockDone(w, ax[..]);
  }

  method ZeroArray(w: Work) returns (a: array<real>)
    requires w.Valid()
    ensures fresh(a) && PassesAt(w, a[..], 0)
  {
    a := new real[w.n * w.nrhs];
    for q := 0 to a.Length
      invariant forall r :: 0 <= r < q ==> a[r] == 0.0
    {
      a[q] := 0.0;
    }
    ZeroBlock(w, a[..]);
    hide w.VectorAt, LowerTriangular;
    forall k: nat | k < w.nrhs ensures PassAt(w, a[..], k, 0) {
      assert w.VectorAt(a[..], k, w.m.graph.vertexDist[w.p], Ahead(k, 0, 0));
    }
  }

  /** Vector k is finished when the outer loop has passed it, and untouched before. */
  ghost predicate PassAt(w: Work, a: seq<real>, k: nat, at: nat)
    requires w.p + 1 < |w.m.graph.vertexDist|
  {
    w.VectorAt(a, k, if k < at then w.m.graph.vertexDist[w.p + 1] else w.m.graph.vertexDist[w.p], 0)
  }

  ghost predicate PassesAt(w: Work, a: seq<real>, at: nat)
    requires w.p + 1 < |w.m.graph.vertexDist|
  {
    IsBlock(a, w.n, w.nrhs) && forall k: nat :: k < w.nrhs ==> PassAt(w, a, k, at)
  }

  ghost predicate OthersAt(w: Work, a: seq<real>, at: nat)
    requires w.p + 1 < |w.m.graph.vertexDist|
  {
    IsBlock(a, w.n, w.nrhs) && forall k: nat :: k < w.nrhs && k != at ==> PassAt(w, a, k, at)
  }

  lemma StartPass(w: Work, a: seq<real>, k: nat)
    requires w.Valid() && k < w.nrhs && PassesAt(w, a, k)
    ensures w.VectorAt(a, k, w.m.graph.vertexDist[w.p], 0) && OthersAt(w, a, k)
  {
    assert PassAt(w, a, k, k);
  }

  lemma EndPass(w: Work, a: seq<real>, k: nat)
    requires w.Valid() && k < w.nrhs && OthersAt(w, a, k) && w.VectorAt(a, k, w.m.graph.vertexDist[w.p + 1], 0)
    ensures PassesAt(w, a, k + 1)
  {
    hide w.VectorAt;
    var next := k + 1;
    forall k': nat | k' < w.nrhs ensures PassAt(w, a, k', next) {
      assert k' == k || PassAt(w, a, k', k);
    }
  }

  /** One owned column for one vector. */
  method AxColumn(w: Work, ax: array<real>, k: nat, j: nat)
    requires w.Valid() && w.Owns(j) && w.VectorAt(ax[..], k, j, 0) && OthersAt(w, ax[..], k)
    modifies ax
    ensures w.VectorAt(ax[..], k, j + 1, 0) && OthersAt(w, ax[..], k)
  {
    hide *;
    ColumnSlots(w, j);
    var g := w.m.graph.ranks[w.p];
    var iLocal := j - w.m.graph.vertexDist[w.p];
    var colbeg, colend := g.colptr[iLocal], g.colptr[iLocal + 1];
    for ii := colbeg to colend
      invariant w.VectorAt(ax[..], k, j, ii - colbeg) && OthersAt(w, ax[..], k)
    {
      AxEntry(w, ax, k, j, ii - colbeg, g.rowind[ii - 1], w.m.values[w.p][ii - 1]);
    }
    ColumnDone(w, ax[..], k, j);
  }

  method AxEntry(w: Work, ax: array<real>, k: nat, j: nat, e: nat, row: nat, val: real)
    requires w.VectorAt(ax[..], k, j, e) && w.Owns(j) && e < |w.m.Column(j)|
    requires w.m.Column(j)[e] == Element(row, val) && 1 <= row <= w.n && OthersAt(w, ax[..], k)
    modifies ax
    ensures w.VectorAt(ax[..], k, j, e + 1) && OthersAt(w, ax[..], k)
  {
    ghost var before := ax[..];
    AddNext(w, ax, k, j, e, row, val);
    assert IsBlock(ax[..], w.n, w.nrhs);
    hide w.VectorAt, IsBlock;
    forall k': nat | k' < w.nrhs && k' != k ensures PassAt(w, ax[..], k', k) {
      assert PassAt(w, before, k', k);
    }
  }

  // ---- All ranks ----

  /** Sum of the first k contributions at one position. */
  function SumAt(parts: seq<seq<real>>, k: nat, q: nat): real
    requires k <= |parts| && forall p :: 0 <= p < k ==> q < |parts[p]|
  {
    if k == 0 then 0.0 else SumAt(parts, k - 1, q) + parts[k - 1][q]
  }

  /** What an all-reduce leaves on every rank. */
  function AllReduce(parts: seq<seq<real>>, len: nat): (r: seq<real>)
    requires forall p :: 0 <= p < |parts| ==> |parts[p]| == len
    ensures |r| == len
    ensures forall q :: 0 <= q < len ==> r[q] == SumAt(parts, |parts|, q)
  {
    seq(len, q requires 0 <= q < len => SumAt(parts, |parts|, q))
  }

  /** The block is the full symmetric matrix times the block x. */
  ghost predicate IsProduct(m: Matrix, a: seq<real>, n: nat, nrhs: nat, x: seq<real>)
    requires m.Valid()
  {
    && IsBlock(a, n, nrhs) && IsBlock(x, n, nrhs) && n == m.Size()
    && forall i: nat, k: nat :: 1 <= i <= n && k < nrhs ==>
      Elem(a, n, nrhs, i, k) == RowTimes(m, i, Vec(x, n, nrhs, k), n)
  }

  lemma {:induction false} SharesSum(m: Matrix, parts: seq<seq<real>>, n: nat, nrhs: nat, x: seq<real>, c: nat, i: nat,
                                     k: nat)
    requires c <= |parts| == |m.graph.ranks| && 1 <= i <= n && k < nrhs
    requires forall p :: 0 <= p < |parts| ==> IsShare(Work(m, p, n, nrhs, x), parts[p])
    requires m.Valid() && IsBlock(x, n, nrhs) && Pos(n, i, k) < n * nrhs
    requires forall p :: 0 <= p < |parts| ==> |parts[p]| == n * nrhs
    ensures SumAt(parts, c, Pos(n, i, k)) == RankSum(m, c, i, Vec(x, n, nrhs, k))
    decreases c
  {
    hide RankPart, LowerTriangular, Vec;
    if c > 0 {
      SharesSum(m, parts, n, nrhs, x, c - 1, i, k);
      assert IsShare(Work(m, c - 1, n, nrhs, x), parts[c - 1]);
      ElemIs(parts[c - 1], n, nrhs, i, k);
    }
  }

  lemma ReducedIsProduct(m: Matrix, parts: seq<seq<real>>, n: nat, nrhs: nat, x: seq<real>)
    requires m.Valid() && LowerTriangular(m) && n == m.Size() && |parts| == |m.graph.ranks|
    requires forall p :: 0 <= p < |parts| ==> IsShare(Work(m, p, n, nrhs, x), parts[p])
    requires forall p :: 0 <= p < |parts| ==> |parts[p]| == n * nrhs
    requires IsBlock(x, n, nrhs)
    ensures IsProduct(m, AllReduce(parts, n * nrhs), n, nrhs, x)
  {
    hide LowerTriangular, IsShare, RankSum, RowTimes, Vec;
    forall i: nat, k: nat | 1 <= i <= n && k < nrhs
      ensures Elem(AllReduce(parts, n * nrhs), n, nrhs, i, k) == RowTimes(m, i, Vec(x, n, nrhs, k), n)
    {
      PosInRange(n, nrhs, i, k);
      SharesSum(m, parts, n, nrhs, x, |parts|, i, k);
      SumOverRanksIsProduct(m, i, Vec(x, n, nrhs, k));
    }
  }

  /** generate_rhs on all ranks: the full symmetric product, however the columns are split. */
  method GenerateRhs(m: Matrix, n: nat, nrhs: nat, xTrue: seq<real>) returns (rhs: seq<real>)
    requires m.Valid() && LowerTriangular(m) && n == m.Size() && IsBlock(xTrue, n, nrhs)
    ensures IsProduct(m, rhs, n, nrhs, xTrue)
    ensures |rhs| == n * nrhs && forall i: nat, k: nat :: 1 <= i <= n && k < nrhs ==>
      Elem(rhs, n, nrhs, i, k) == RowTimes(m, i, Vec(xTrue, n, nrhs, k), n)
  {
    hide LowerTriangular, RankPart, RowTimes, Vec, Elem;
    var parts: seq<seq<real>> := [];
    for p := 0 to |m.graph.ranks|
      invariant |parts| == p
      invariant forall q :: 0 <= q < p ==> IsShare(Work(m, q, n, nrhs, xTrue), parts[q]) && |parts[q]| == n * nrhs
    {
      var mine := LocalRhs(Work(m, p, n, nrhs, xTrue));
      parts := parts + [mine[..]];
    }
    ReducedIsProduct(m, parts, n, nrhs, xTrue);
    rhs := AllReduce(parts, n * nrhs);
  }

  /** Two blocks that agree in every row and vector are the same block. */
  lemma BlockDetermined(a: seq<real>, b: seq<real>, n: nat, nrhs: nat)
    requires IsBlock(a, n, nrhs) && IsBlock(b, n, nrhs)
    requires forall i: nat, k: nat :: 1 <= i <= n && k < nrhs ==> Elem(a, n, nrhs, i, k) == Elem(b, n, nrhs, i, k)
    ensures a == b
  {
    forall q: nat | q < |a| ensures a[q] == b[q] {
      PositionIsPos(n, nrhs, q);
      var i, k := q % n + 1, q / n;
      assert Elem(a, n, nrhs, i, k) == Elem(b, n, nrhs, i, k);
    }
  }

  lemma PositionIsPos(n: nat, nrhs: nat, q: nat)
    requires q < n * nrhs
    ensures n > 0 && q / n < nrhs && Pos(n, q % n + 1, q / n) == q
  {
    assert q == q / n * n + q % n;
    if q / n >= nrhs {
      TimesIsMonotone(nrhs, q / n, n);
    }
  }

  lemma SameProduct(m: Matrix, ax: seq<real>, rhs: seq<real>, n: nat, nrhs: nat, x: seq<real>)
    requires m.Valid() && IsProduct(m, ax, n, nrhs, x) && IsBlock(rhs, n, nrhs)
    ensures ax == rhs <==> IsProduct(m, rhs, n, nrhs, x)
  {
    hide Elem, Vec, RowTimes, IsBlock;
    if IsProduct(m, rhs, n, nrhs, x) {
      BlockDetermined(ax, rhs, n, nrhs);
    }
  }

  /** The shares of all ranks for check_solution. */
  method AxShares(m: Matrix, n: nat, nrhs: nat, xFinal: seq<real>) returns (parts: seq<seq<real>>)
    requires m.Valid() && LowerTriangular(m) && n == m.Size() && IsBlock(xFinal, n, nrhs)
    ensures |parts| == |m.graph.ranks|
    ensures forall p :: 0 <= p < |parts| ==> IsShare(Work(m, p, n, nrhs, xFinal), parts[p]) && |parts[p]| == n * nrhs
  {
    hide LowerTriangular;
    parts := [];
    for p := 0 to |m.graph.ranks|
      invariant |parts| == p
      invariant forall q :: 0 <= q < p ==> IsShare(Work(m, q, n, nrhs, xFinal), parts[q]) && |parts[q]| == n * nrhs
    {
      var mine := LocalAx(Work(m, p, n, nrhs, xFinal));
      parts := parts + [mine[..]];
    }
  }

  /** ax - rhs, position by position. */
  function Minus(ax: seq<real>, rhs: seq<real>): (r: seq<real>)
    requires |ax| == |rhs|
    ensures |r| == |ax|
    ensures forall q :: 0 <= q < |r| ==> r[q] == ax[q] - rhs[q]
  {
    seq(|ax|, q requires 0 <= q < |ax| => ax[q] - rhs[q])
  }

  lemma MinusVanishes(ax: seq<real>, rhs: seq<real>)
    requires |ax| == |rhs|
    ensures (forall q :: 0 <= q < |Minus(ax, rhs)| ==> Minus(ax, rhs)[q] == 0.0) <==> ax == rhs
  {
    var r := Minus(ax, rhs);
    if forall q :: 0 <= q < |r| ==> r[q] == 0.0 {
      forall q | 0 <= q < |ax| ensures ax[q] == rhs[q] {
        assert r[q] == 0.0;
      }
    }
  }

  lemma MinusElem(m: Matrix, ax: seq<real>, rhs: seq<real>, n: nat, nrhs: nat, x: seq<real>)
    requires m.Valid() && IsProduct(m, ax, n, nrhs, x) && IsBlock(rhs, n, nrhs)
    ensures forall i: nat, k: nat :: 1 <= i <= n && k < nrhs ==>
      Elem(Minus(ax, rhs), n, nrhs, i, k) == RowTimes(m, i, Vec(x, n, nrhs, k), n) - Elem(rhs, n, nrhs, i, k)
  {
    hide Vec, RowTimes;
    forall i: nat, k: nat | 1 <= i <= n && k < nrhs
      ensures Elem(Minus(ax, rhs), n, nrhs, i, k) == RowTimes(m, i, Vec(x, n, nrhs, k), n) - Elem(rhs, n, nrhs, i, k)
    {
      PosInRange(n, nrhs, i, k);
      assert Elem(ax, n, nrhs, i, k) == RowTimes(m, i, Vec(x, n, nrhs, k), n);
    }
  }

  /** check_solution on all ranks: what it leaves is the product with what was found less the right-hand side,
      position by position. It vanishes exactly when the right-hand side is that product. */
  method CheckSolution(m: Matrix, n: nat, nrhs: nat, rhs: seq<real>, xFinal: seq<real>) returns (residual: seq<real>)
    requires m.Valid() && LowerTriangular(m) && n == m.Size() && IsBlock(xFinal, n, nrhs) && IsBlock(rhs, n, nrhs)
    ensures |residual| == n * nrhs
    ensures forall i: nat, k: nat :: 1 <= i <= n && k < nrhs ==>
      Elem(residual, n, nrhs, i, k) == RowTimes(m, i, Vec(xFinal, n, nrhs, k), n) - Elem(rhs, n, nrhs, i, k)
    ensures (forall q :: 0 <= q < |residual| ==> residual[q] == 0.0) <==> IsProduct(m, rhs, n, nrhs, xFinal)
  {
    hide LowerTriangular, IsProduct, RankPart, IsShare;
    var parts := AxShares(m, n, nrhs, xFinal);
    ReducedIsProduct(m, parts, n, nrhs, xFinal);
    var ax := AllReduce(parts, n * nrhs);
    residual := Minus(ax, rhs);
    MinusVanishes(ax, rhs);
    SameProduct(m, ax, rhs, n, nrhs, xFinal);
    MinusElem(m, ax, rhs, n, nrhs, xFinal);
  }

  /** The right-hand side made from a solution leaves no residual for that solution. */
  method CheckTrueSolution(m: Matrix, n: nat, nrhs: nat, xTrue: seq<real>) returns (residual: seq<real>)
    requires m.Valid() && LowerTriangular(m) && n == m.Size() && IsBlock(xTrue, n, nrhs)
    ensures |residual| == n * nrhs && forall q :: 0 <= q < |residual| ==> residual[q] == 0.0
  {
    var rhs := GenerateRhs(m, n, nrhs, xTrue);
    residual := CheckSolution(m, n, nrhs, rhs, xTrue);
  }
}
