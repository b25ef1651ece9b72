/** AllGatherStructure: every rank's columns joined into one graph. */
module Gathering {
  import opened Sequences
  import opened SparseGraphs
  import opened DistGraphs
  import opened DistExpansion

  /** Edges stored on the first k ranks. */
  ghost function EdgesBefore(d: Dist, k: nat): nat
    requires k <= |d.ranks|
  {
    if k == 0 then 0 else EdgesBefore(d, k - 1) + |d.ranks[k - 1].rowind|
  }

  /** The rows of the first k ranks. */
  function JoinedRows(ranks: seq<Csc>, k: nat): seq<nat>
    requires k <= |ranks|
  {
    if k == 0 then [] else JoinedRows(ranks, k - 1) + ranks[k - 1].rowind
  }

  /** The column pointers of the first k ranks, each rank without its last one. */
  function JoinedPointers(ranks: seq<Csc>, k: nat): seq<nat>
    requires k <= |ranks| && forall p :: 0 <= p < |ranks| ==> |ranks[p].colptr| >= 1
  {
    if k == 0 then [] else JoinedPointers(ranks, k - 1) + ranks[k - 1].colptr[..|ranks[k - 1].colptr| - 1]
  }

  lemma RanksNonEmpty(d: Dist)
    requires d.Valid()
    ensures forall p :: 0 <= p < |d.ranks| ==> |d.ranks[p].colptr| >= 1
  {
    forall p | 0 <= p < |d.ranks|
      ensures |d.ranks[p].colptr| >= 1
    {
      assert d.RankValid(p);
    }
  }

  lemma {:induction false} JoinedSizes(d: Dist, k: nat)
    requires d.Valid() && k <= |d.ranks| && forall p :: 0 <= p < |d.ranks| ==> |d.ranks[p].colptr| >= 1
    ensures |JoinedRows(d.ranks, k)| == EdgesBefore(d, k)
    ensures |JoinedPointers(d.ranks, k)| == d.vertexDist[k] - d.base
  {
    if k > 0 {
      JoinedSizes(d, k - 1);
      assert d.RankValid(k - 1);
    }
  }

  /** The pointers of rank p's columns have been moved by the edges before it. */
  ghost predicate PointersFixed(d: Dist, colptr: seq<nat>, p: nat)
    requires d.Valid() && p < |d.ranks|
  {
    && d.RankValid(p)
    && FirstColumn(d, p) + |d.ranks[p].colptr| - 1 < |colptr|
    && forall l :: 0 <= l < |d.ranks[p].colptr| - 1 ==>
         colptr[FirstColumn(d, p) + l] == d.ranks[p].colptr[l] + EdgesBefore(d, p)
  }

  ghost predicate PointersRaw(d: Dist, colptr: seq<nat>, p: nat)
    requires d.Valid() && p < |d.ranks|
  {
    && d.RankValid(p)
    && FirstColumn(d, p) + |d.ranks[p].colptr| - 1 < |colptr|
    && forall l :: 0 <= l < |d.ranks[p].colptr| - 1 ==>
         colptr[FirstColumn(d, p) + l] == d.ranks[p].colptr[l]
  }

  lemma {:induction false} JoinedPart(d: Dist, p: nat, k: nat, l: nat)
    requires d.Valid() && p < k <= |d.ranks| && forall q :: 0 <= q < |d.ranks| ==> |d.ranks[q].colptr| >= 1
    requires d.RankValid(p) && l < |d.ranks[p].colptr| - 1
    ensures FirstColumn(d, p) + l < |JoinedPointers(d.ranks, k)|
    ensures JoinedPointers(d.ranks, k)[FirstColumn(d, p) + l] == d.ranks[p].colptr[l]
    decreases k
  {
    JoinedSizes(d, k - 1);
    assert d.RankValid(k - 1);
    if p < k - 1 { JoinedPart(d, p, k - 1, l); }
  }

  lemma {:induction false} JoinedRowsPart(d: Dist, p: nat, k: nat)
    requires d.Valid() && p < k <= |d.ranks| && forall q :: 0 <= q < |d.ranks| ==> |d.ranks[q].colptr| >= 1
    ensures EdgesBefore(d, p) + |d.ranks[p].rowind| <= EdgesBefore(d, k) == |JoinedRows(d.ranks, k)|
    ensures JoinedRows(d.ranks, k)[EdgesBefore(d, p)..EdgesBefore(d, p) + |d.ranks[p].rowind|] == d.ranks[p].rowind
    decreases k
  {
    JoinedSizes(d, k - 1);
    JoinedSizes(d, k);
    if p < k - 1 { JoinedRowsPart(d, p, k - 1); }
  }

  /** Offsets the pointers of one rank. */
  method FixRank(colptr: array<nat>, pos: nat, count: nat, offset: nat)
    requires pos + count <= colptr.Length
    modifies colptr
    ensures forall i :: 0 <= i < colptr.Length ==>
      colptr[i] == old(colptr[i]) + if pos <= i < pos + count then offset else 0
  {
    var lv := 0;
    while lv < count
      invariant 0 <= lv <= count
      invariant forall i :: 0 <= i < colptr.Length ==>
        colptr[i] == old(colptr[i]) + if pos <= i < pos + lv then offset else 0
    {
      colptr[pos + lv] := colptr[pos + lv] + offset;
      lv := lv + 1;
    }
  }

  /** Fixes the pointers rank by rank; the last pointer is set at the end. */
  method FixPointers(d: Dist, colptr: array<nat>)
    requires d.Valid() && colptr.Length == d.Size() + 1
    requires forall p :: 0 <= p < |d.ranks| ==> PointersRaw(d, colptr[..], p)
    modifies colptr
    ensures forall p :: 0 <= p < |d.ranks| ==> PointersFixed(d, colptr[..], p)
    ensures colptr[d.Size()] == old(colptr[d.Size()])
  {
    assert PointersRaw(d, colptr[..], 0);
    ghost var last := colptr[d.Size()];
    var pos := |d.ranks[0].colptr| - 1;
    var offset := 0;
    var p := 1;
    assert d.RankValid(0);
    assert PointersFixed(d, colptr[..], 0) by { assert EdgesBefore(d, 0) == 0; }
    while p < |d.ranks|
      invariant 1 <= p <= |d.ranks|
      invariant pos == d.vertexDist[p] - d.base && offset == EdgesBefore(d, p - 1)
      invariant forall q :: 0 <= q < p ==> PointersFixed(d, colptr[..], q)
      invariant forall q :: p <= q < |d.ranks| ==> PointersRaw(d, colptr[..], q)
      invariant colptr[d.Size()] == last
    {
      assert d.RankValid(p) && d.vertexDist[p + 1] <= d.vertexDist[|d.ranks|];
      offset := offset + |d.ranks[p - 1].rowind|;
      ghost var before := colptr[..];
      var count := |d.ranks[p].colptr| - 1;
      FixRank(colptr, pos, count, offset);
      forall q | 0 <= q < |d.ranks|
        ensures q <= p ==> PointersFixed(d, colptr[..], q)
        ensures q > p ==> PointersRaw(d, colptr[..], q)
      {
        FixKeeps(d, before, colptr[..], p, q);
      }
      pos := pos + count;
      p := p + 1;
    }
  }

  lemma FixKeeps(d: Dist, before: seq<nat>, now: seq<nat>, p: nat, q: nat)
    requires d.Valid() && p < |d.ranks| && q < |d.ranks| && |before| == |now| && d.RankValid(p)
    requires forall i :: 0 <= i < |now| ==>
      now[i] == before[i] +
        if FirstColumn(d, p) <= i < FirstColumn(d, p) + |d.ranks[p].colptr| - 1 then EdgesBefore(d, p) else 0
    requires if q < p then PointersFixed(d, before, q) else PointersRaw(d, before, q)
    ensures if q <= p then PointersFixed(d, now, q) else PointersRaw(d, now, q)
  {
    hide EdgesBefore, Csc.Valid;
    assert d.RankValid(q);
    var f := FirstColumn(d, q);
    forall i | f <= i < f + |d.ranks[q].colptr| - 1
      ensures i < |now| && now[i] == before[i] + if p == q then EdgesBefore(d, p) else 0
    {
      if q < p { assert d.vertexDist[q + 1] <= d.vertexDist[p]; }
      if p < q { assert d.vertexDist[p + 1] <= d.vertexDist[q]; }
    }
  }

  lemma {:induction false} EdgesBeforeGrows(d: Dist, p: nat, k: nat)
    requires p <= k <= |d.ranks|
    ensures EdgesBefore(d, p) <= EdgesBefore(d, k)
    ensures p < k ==> EdgesBefore(d, p) + |d.ranks[p].rowind| <= EdgesBefore(d, k)
    decreases k
  {
    if p < k { EdgesBeforeGrows(d, p, k - 1); }
  }

  /** Where pointer i of the joined graph comes from: the rank and local column of column i. */
  lemma PointerOf(d: Dist, g: Csc, i: nat) returns (p: nat, l: nat)
    requires d.Valid() && i < d.Size() && |g.colptr| == d.Size() + 1
    requires forall q :: 0 <= q < |d.ranks| ==> PointersFixed(d, g.colptr, q)
    ensures p < |d.ranks| && d.RankValid(p) && l < |d.ranks[p].colptr| - 1 && i == FirstColumn(d, p) + l
    ensures g.colptr[i] == d.ranks[p].colptr[l] + EdgesBefore(d, p)
  {
    OwnerExists(d.vertexDist, d.base, |d.ranks|, i + d.base, 0);
    p := Owner(d.vertexDist, i + d.base, 0);
    l := i - FirstColumn(d, p);
    assert d.RankValid(p) && PointersFixed(d, g.colptr, p);
  }

  lemma PointersOrdered(d: Dist, g: Csc, i: nat, j: nat)
    requires d.Valid() && g.base == d.base && i <= j <= d.Size() && |g.colptr| == d.Size() + 1
    requires forall q :: 0 <= q < |d.ranks| ==> PointersFixed(d, g.colptr, q)
    requires g.colptr[d.Size()] == EdgesBefore(d, |d.ranks|) + d.base
    ensures g.colptr[i] <= g.colptr[j]
  {
    if i < j {
      var p, l := PointerOf(d, g, i);
      EdgesBeforeGrows(d, p, |d.ranks|);
      if j < d.Size() {
        var q, m := PointerOf(d, g, j);
        if p < q { EdgesBeforeGrows(d, p, q); }
      }
    }
  }

  /** The next pointer ends the column, also across ranks that own nothing. */
  lemma NextPointer(d: Dist, g: Csc, p: nat, l: nat)
    requires d.Valid() && g.base == d.base && p < |d.ranks| && d.RankValid(p) && l < |d.ranks[p].colptr| - 1
    requires |g.colptr| == d.Size() + 1 && FirstColumn(d, p) + l < d.Size()
    requires forall q :: 0 <= q < |d.ranks| ==> PointersFixed(d, g.colptr, q)
    requires g.colptr[d.Size()] == EdgesBefore(d, |d.ranks|) + d.base
    ensures g.colptr[FirstColumn(d, p) + l + 1] == d.ranks[p].colptr[l + 1] + EdgesBefore(d, p)
  {
    var s := d.ranks[p];
    if l + 1 < |s.colptr| - 1 {
      assert PointersFixed(d, g.colptr, p);
    } else {
      hide PointersFixed;
      assert d.vertexDist[p + 1] - d.base == FirstColumn(d, p) + l + 1;
      StartOfNext(d, g, p + 1);
      assert s.colptr[l + 1] == d.base + |s.rowind|;
    }
  }

  /** The pointer at the start of rank p's block counts all edges before it. */
  lemma {:induction false} StartOfNext(d: Dist, g: Csc, p: nat)
    requires d.Valid() && g.base == d.base && p <= |d.ranks| && |g.colptr| == d.Size() + 1
    requires d.vertexDist[p] - d.base <= d.Size()
    requires forall q :: 0 <= q < |d.ranks| ==> PointersFixed(d, g.colptr, q)
    requires g.colptr[d.Size()] == EdgesBefore(d, |d.ranks|) + d.base
    ensures g.colptr[d.vertexDist[p] - d.base] == EdgesBefore(d, p) + d.base
    decreases |d.ranks| - p
  {
    if p < |d.ranks| {
      assert PointersFixed(d, g.colptr, p) && d.RankValid(p);
      if |d.ranks[p].colptr| == 1 {
        assert d.ranks[p].colptr[0] == d.base + |d.ranks[p].rowind|;
        StartOfNext(d, g, p + 1);
      }
    }
  }

  lemma GatheredStorage(d: Dist, g: Csc)
    requires d.Valid() && g.base == d.base && |g.colptr| == d.Size() + 1
    requires forall p :: 0 <= p < |d.ranks| ==> PointersFixed(d, g.colptr, p)
    requires g.colptr[d.Size()] == EdgesBefore(d, |d.ranks|) + d.base
    requires g.rowind == JoinedRows(d.ranks, |d.ranks|)
    ensures g.Valid() && g.Columns() == d.Gathered()
  {
    hide PointersFixed;
    RanksNonEmpty(d);
    JoinedSizes(d, |d.ranks|);
    StartOfNext(d, g, 0);
    forall i, j | 0 <= i <= j < |g.colptr|
      ensures g.colptr[i] <= g.colptr[j]
    {
      PointersOrdered(d, g, i, j);
    }
    forall i | 0 <= i < d.Size()
      ensures g.Column(i) == d.Gathered()[i]
    {
      GatheredOneColumn(d, g, i);
    }
  }

  lemma GatheredOneColumn(d: Dist, g: Csc, i: nat)
    requires d.Valid() && g.base == d.base && |g.colptr| == d.Size() + 1 && g.Valid() && i < d.Size()
    requires forall p :: 0 <= p < |d.ranks| ==> PointersFixed(d, g.colptr, p)
    requires g.colptr[d.Size()] == EdgesBefore(d, |d.ranks|) + d.base
    requires g.rowind == JoinedRows(d.ranks, |d.ranks|)
    ensures g.Column(i) == d.Gathered()[i]
  {
    var p, l := PointerOf(d, g, i);
    NextPointer(d, g, p, l);
    d.GatheredColumn(p, l);
    RanksNonEmpty(d);
    JoinedRowsPart(d, p, |d.ranks|);
    var s := d.ranks[p];
    assert s.colptr[l + 1] <= s.colptr[|s.colptr| - 1];
    var from, to := s.colptr[l] - s.base, s.colptr[l + 1] - s.base;
    var at := EdgesBefore(d, p);
    SliceOfSlice(g.rowind, at, at + |s.rowind|, from, to);
  }

  /** Joins the ranks' pointers and rows; the pointers of rank p are moved by the edges before it. */
  method AllGatherStructure(d: Dist) returns (g: Csc)
    requires d.Valid()
    ensures g.Valid() && g.base == d.base && |g.colptr| == d.Size() + 1
    ensures g.Columns() == d.Gathered()
  {
    hide PointersFixed, PointersRaw;
    var np := |d.ranks|;
    RanksNonEmpty(d);
    JoinedSizes(d, np);
    var gathered := JoinedPointers(d.ranks, np);
    var colptr := new nat[|gathered| + 1](i requires 0 <= i <= |gathered| => if i < |gathered| then gathered[i] else 0);
    forall p | 0 <= p < np
      ensures PointersRaw(d, colptr[..], p)
    {
      RawPointers(d, gathered, colptr[..], p);
    }
    FixPointers(d, colptr);
    var rowind := JoinedRows(d.ranks, np);
    ghost var fixed := colptr[..];
    colptr[colptr.Length - 1] := |rowind| + d.base;
    g := Csc(d.base, colptr[..], rowind);
    forall p | 0 <= p < np
      ensures PointersFixed(d, g.colptr, p)
    {
      LastPointerFree(d, fixed, g.colptr, p);
    }
    GatheredStorage(d, g);
  }

  lemma RawPointers(d: Dist, gathered: seq<nat>, colptr: seq<nat>, p: nat)
    requires d.Valid() && p < |d.ranks| && forall q :: 0 <= q < |d.ranks| ==> |d.ranks[q].colptr| >= 1
    requires gathered == JoinedPointers(d.ranks, |d.ranks|) && |colptr| == |gathered| + 1 == d.Size() + 1
    requires forall i :: 0 <= i < |gathered| ==> colptr[i] == gathered[i]
    ensures PointersRaw(d, colptr, p)
  {
    assert d.RankValid(p) && d.vertexDist[p + 1] <= d.vertexDist[|d.ranks|];
    forall l | 0 <= l < |d.ranks[p].colptr| - 1
      ensures colptr[FirstColumn(d, p) + l] == d.ranks[p].colptr[l]
    {
      JoinedPart(d, p, |d.ranks|, l);
    }
  }

  lemma LastPointerFree(d: Dist, was: seq<nat>, now: seq<nat>, p: nat)
    requires d.Valid() && p < |d.ranks| && PointersFixed(d, was, p)
    requires |was| == |now| == d.Size() + 1 && forall i :: 0 <= i < d.Size() ==> was[i] == now[i]
    ensures PointersFixed(d, now, p)
  {
    assert d.RankValid(p) && d.vertexDist[p + 1] <= d.vertexDist[|d.ranks|];
  }
}
