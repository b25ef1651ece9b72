/** The distributed graph as it is programmed: one object a rank, each with its share of the columns and
    its own copy of the flags and of the split. */
module DistGraphClasses {
  import opened SparseGraphs
  import opened DistGraphs
  import opened DistExpansion
  import opened SortedRows
  import opened Permuting
  import opened RoundTrips
  import opened Restriction
  import opened GraphClasses
  import Gathering
  import Collectives
  import R = Redistributing
  import Slices

  class DistSparseMatrixGraph {
    var size: nat
    var baseval: nat
    var keepDiag: bool
    var sorted: bool
    var expanded: bool
    var mpirank: nat
    var vertexDist: seq<nat>
    var colptr: seq<nat>
    var rowind: seq<nat>

    function Storage(): Csc
      reads this
    {
      Csc(baseval, colptr, rowind)
    }

    ghost predicate Valid()
      reads this
    {
      && mpirank + 1 < |vertexDist| && vertexDist[mpirank] <= vertexDist[mpirank + 1]
      && Storage().Valid() && |colptr| == vertexDist[mpirank + 1] - vertexDist[mpirank] + 1
    }

    /** Back to the lower triangle; concerns this rank only. */
    method ToSymmetric()
      requires Valid() && baseval <= vertexDist[mpirank]
      modifies this
      ensures size == old(size) && baseval == old(baseval) && keepDiag == old(keepDiag) && sorted == old(sorted)
      ensures mpirank == old(mpirank) && vertexDist == old(vertexDist) && !expanded
      ensures !old(expanded) ==> Storage() == old(Storage())
      ensures old(expanded) ==> IsRestricted(old(Storage()), vertexDist[mpirank], keepDiag, Storage())
    {
      hide IsRestricted, Csc.Valid;
      if expanded {
        var t := RestrictLocal(Storage(), vertexDist[mpirank], keepDiag);
        RestrictedBase(Storage(), vertexDist[mpirank], keepDiag, t);
        colptr, rowind, expanded := t.colptr, t.rowind, false;
        assert Storage() == t;
      }
    }
  }

  lemma RestrictedBase(s: Csc, first: nat, keepDiag: bool, t: Csc)
    requires s.Valid() && IsRestricted(s, first, keepDiag, t)
    ensures t.base == s.base
  {
  }

  function TeamStorage(rs: seq<DistSparseMatrixGraph>): (d: Dist)
    requires rs != []
    reads rs
    ensures d.base == rs[0].baseval && d.vertexDist == rs[0].vertexDist && |d.ranks| == |rs|
    ensures forall p :: 0 <= p < |rs| ==> d.ranks[p] == rs[p].Storage()
  {
    Dist(rs[0].baseval, rs[0].vertexDist, seq(|rs|, p requires 0 <= p < |rs| reads rs => rs[p].Storage()))
  }

  /** The objects of all ranks fit together: the same flags and split everywhere, each its own share. */
  ghost predicate Team(rs: seq<DistSparseMatrixGraph>)
    reads rs
  {
    && rs != [] && (forall p, q :: 0 <= p < q < |rs| ==> rs[p] != rs[q])
    && (forall p :: 0 <= p < |rs| ==> Fits(rs[p], rs[0], p))
    && TeamStorage(rs).Valid() && TeamStorage(rs).Size() == rs[0].size
  }

  ghost predicate Fits(r: DistSparseMatrixGraph, first: DistSparseMatrixGraph, p: nat)
    reads r, first
  {
    && r.mpirank == p && r.size == first.size && r.baseval == first.baseval && r.keepDiag == first.keepDiag
    && r.sorted == first.sorted && r.expanded == first.expanded && r.vertexDist == first.vertexDist
  }

  /** What the objects share and what each has of d. */
  ghost predicate HasShare(r: DistSparseMatrixGraph, d: Dist, p: nat, size: nat, keepDiag: bool, expanded: bool,
                           sorted: bool)
    requires p < |d.ranks|
    reads r
  {
    && r.mpirank == p && r.size == size && r.baseval == d.base && r.keepDiag == keepDiag
    && r.colptr == d.ranks[p].colptr && r.rowind == d.ranks[p].rowind && r.vertexDist == d.vertexDist
    && r.expanded == expanded && r.sorted == sorted
  }

  ghost predicate OneBase(d: Dist) { forall p :: 0 <= p < |d.ranks| ==> d.ranks[p].base == d.base }

  lemma ValidHasOneBase(d: Dist)
    requires d.Valid()
    ensures OneBase(d)
  {
    forall p | 0 <= p < |d.ranks| ensures d.ranks[p].base == d.base {
      assert d.RankValid(p);
    }
  }

  lemma SharesMakeTeam(rs: seq<DistSparseMatrixGraph>, d: Dist, size: nat, keepDiag: bool, expanded: bool, sorted: bool)
    requires rs != [] && IsSplit(d.vertexDist, d.base, |d.ranks|) && |rs| == |d.ranks| && d.Size() == size
    requires OneBase(d) && forall p, q :: 0 <= p < q < |rs| ==> rs[p] != rs[q]
    requires forall q :: 0 <= q < |rs| ==> HasShare(rs[q], d, q, size, keepDiag, expanded, sorted)
    ensures TeamStorage(rs) == d && (Team(rs) <==> d.Valid())
  {
    assert HasShare(rs[0], d, 0, size, keepDiag, expanded, sorted);
    forall q | 0 <= q < |rs| ensures TeamStorage(rs).ranks[q] == d.ranks[q] && Fits(rs[q], rs[0], q) {
      assert HasShare(rs[q], d, q, size, keepDiag, expanded, sorted);
    }
    assert TeamStorage(rs).ranks == d.ranks;
    hide HasShare, Fits, Dist.Valid;
  }

  /** Every rank stores its new arrays. */
  method StoreAll(rs: seq<DistSparseMatrixGraph>, d: Dist, expanded: bool, sorted: bool)
    requires Team(rs) && d.base == rs[0].baseval && |d.ranks| == |rs|
    requires IsSplit(d.vertexDist, d.base, |d.ranks|) && d.Size() == rs[0].size && OneBase(d)
    modifies rs
    ensures TeamStorage(rs) == d && (Team(rs) <==> d.Valid())
    ensures rs[0].expanded == expanded && rs[0].sorted == sorted
    ensures rs[0].size == old(rs[0].size) && rs[0].keepDiag == old(rs[0].keepDiag)
  {
    ghost var size, keep := rs[0].size, rs[0].keepDiag;
    assert forall q :: 0 <= q < |rs| ==> Fits(rs[q], rs[0], q);
    assert forall p, q :: 0 <= p < q < |rs| ==> rs[p] != rs[q];
    StoreLoop(rs, d, expanded, sorted, size, keep);
    hide Team, TeamStorage, Dist.Valid, Dist.Size, Fits, IsSplit, Csc.Valid;
    SharesMakeTeam(rs, d, size, keep, expanded, sorted);
    assert HasShare(rs[0], d, 0, size, keep, expanded, sorted);
  }

  method StoreLoop(rs: seq<DistSparseMatrixGraph>, d: Dist, expanded: bool, sorted: bool, ghost size: nat,
                   ghost keep: bool)
    requires |d.ranks| == |rs| && forall p, q :: 0 <= p < q < |rs| ==> rs[p] != rs[q]
    requires forall q :: 0 <= q < |rs| ==>
      rs[q].mpirank == q && rs[q].size == size && rs[q].baseval == d.base && rs[q].keepDiag == keep
    modifies rs
    ensures forall q :: 0 <= q < |rs| ==> HasShare(rs[q], d, q, size, keep, expanded, sorted)
  {
    for p := 0 to |rs|
      invariant forall q :: p <= q < |rs| ==>
        rs[q].mpirank == q && rs[q].size == size && rs[q].baseval == d.base && rs[q].keepDiag == keep
      invariant forall q :: 0 <= q < p ==> HasShare(rs[q], d, q, size, keep, expanded, sorted)
    {
      var r := rs[p];
      r.colptr, r.rowind, r.vertexDist := d.ranks[p].colptr, d.ranks[p].rowind, d.vertexDist;
      r.expanded, r.sorted := expanded, sorted;
    }
  }

  /** ExpandSymmetric, called on all ranks. Rows are sorted only if the graph was not marked as sorted. */
  method ExpandSymmetric(rs: seq<DistSparseMatrixGraph>)
    requires Team(rs) && RowsInRange(TeamStorage(rs))
    modifies rs
    ensures Team(rs) && rs[0].expanded
    ensures old(rs[0].expanded) ==> TeamStorage(rs) == old(TeamStorage(rs)) && rs[0].sorted == old(rs[0].sorted)
    ensures !old(rs[0].expanded) ==>
      && rs[0].sorted && TeamStorage(rs).vertexDist == old(TeamStorage(rs).vertexDist)
      && TeamStorage(rs).Gathered() ==
        var full := ExpandedColumns(old(TeamStorage(rs).Gathered()), old(rs[0].baseval));
        if old(rs[0].sorted) then full else SortedColumns(full)
    ensures !old(rs[0].expanded) && old(rs[0].sorted) ==> RanksExpanded(old(TeamStorage(rs)), TeamStorage(rs))
  {
    hide RowsInRange, RanksExpanded, ExpandedColumns, SortedColumns;
    if !rs[0].expanded {
      var d := Collectives.ExpandSymmetric(TeamStorage(rs), rs[0].sorted);
      ValidHasOneBase(d);
      StoreAll(rs, d, true, true);
    }
  }

  /** permute_, called on all ranks with the new labels and the new split. */
  method Permute(rs: seq<DistSparseMatrixGraph>, lab: seq<nat>, newVertexDist: seq<nat>)
    requires Team(rs) && RowsInRange(TeamStorage(rs)) && IsLabelling(lab) && |lab| == rs[0].size
    requires IsSplit(newVertexDist, rs[0].baseval, |rs|) && newVertexDist[|rs|] == rs[0].baseval + rs[0].size
    modifies rs
    ensures Team(rs) && TeamStorage(rs).vertexDist == newVertexDist
    ensures rs[0].expanded == old(rs[0].expanded) && rs[0].sorted == old(rs[0].sorted)
    ensures TeamStorage(rs).Gathered() ==
      PermutedTo(lab, old(rs[0].keepDiag), old(rs[0].expanded), old(rs[0].sorted), old(rs[0].baseval),
                 old(TeamStorage(rs).Gathered()))
  {
    hide RowsInRange, PermutedTo, IsLabelling;
    var d := Collectives.Permute(TeamStorage(rs), lab, newVertexDist, rs[0].keepDiag, rs[0].expanded, rs[0].sorted);
    ValidHasOneBase(d);
    StoreAll(rs, d, rs[0].expanded, rs[0].sorted);
  }

  /** What ToSymmetric leaves on one rank. */
  ghost predicate Lowered(r: DistSparseMatrixGraph, s: Csc, first: nat, keepDiag: bool, full: bool)
    reads r
  {
    && !r.expanded
    && if full then s.Valid() && IsRestricted(s, first, keepDiag, r.Storage()) else r.Storage() == s
  }

  ghost predicate Waiting(r: DistSparseMatrixGraph, d: Dist, p: nat, keepDiag: bool, full: bool)
    requires p < |d.ranks|
    reads r
  {
    && r.mpirank == p && r.baseval == d.base && r.vertexDist == d.vertexDist && r.keepDiag == keepDiag
    && r.Storage() == d.ranks[p] && r.expanded == full
  }

  lemma TeamWaits(rs: seq<DistSparseMatrixGraph>)
    requires Team(rs)
    ensures rs != [] && forall p, q :: 0 <= p < q < |rs| ==> rs[p] != rs[q]
    ensures var d := TeamStorage(rs);
      && d.Valid() && |d.vertexDist| == |rs| + 1 == |d.ranks| + 1 && d.vertexDist == rs[0].vertexDist
      && forall q :: 0 <= q < |rs| ==> Waiting(rs[q], d, q, rs[0].keepDiag, rs[0].expanded)
  {
    assert forall q :: 0 <= q < |rs| ==> Fits(rs[q], rs[0], q);
    hide Dist.Valid;
  }

  /** ToSymmetric, called on all ranks. */
  method ToSymmetric(rs: seq<DistSparseMatrixGraph>)
    requires Team(rs)
    modifies rs
    ensures forall p :: 0 <= p < |rs| ==>
      Lowered(rs[p], old(TeamStorage(rs)).ranks[p], old(rs[0].vertexDist)[p], old(rs[0].keepDiag), old(rs[0].expanded))
  {
    hide *;
    TeamWaits(rs);
    ghost var d, keep, full := TeamStorage(rs), rs[0].keepDiag, rs[0].expanded;
    for p := 0 to |rs|
      invariant forall q :: 0 <= q < p ==> Lowered(rs[q], d.ranks[q], d.vertexDist[q], keep, full)
      invariant forall q :: p <= q < |rs| ==> Waiting(rs[q], d, q, keep, full)
    {
      assert Waiting(rs[p], d, p, keep, full);
      d.RankColumns(p);
      LowerOne(rs[p], d, p, keep, full);
    }
  }

  method LowerOne(r: DistSparseMatrixGraph, ghost d: Dist, ghost p: nat, ghost keep: bool, ghost full: bool)
    requires d.Valid() && p < |d.ranks| && d.RankValid(p) && d.base <= d.vertexDist[p] <= d.vertexDist[p + 1]
    requires Waiting(r, d, p, keep, full)
    modifies r
    ensures Lowered(r, d.ranks[p], d.vertexDist[p], keep, full)
  {
    hide IsRestricted;
    r.ToSymmetric();
  }

  /** AllGatherStructure, called on all ranks: what each of them receives. */
  method AllGatherStructure(rs: seq<DistSparseMatrixGraph>, g: SparseMatrixGraph)
    requires Team(rs) && rs[0].baseval <= 1
    modifies g
    ensures g.Valid() && g.size == rs[0].size && g.baseval == rs[0].baseval
    ensures g.expanded == rs[0].expanded && g.sorted == rs[0].sorted && g.keepDiag == rs[0].keepDiag
    ensures g.Columns() == TeamStorage(rs).Gathered()
  {
    assert TeamStorage(rs).Valid() && TeamStorage(rs).Size() == rs[0].size && TeamStorage(rs).base == rs[0].baseval;
    ghost var d := TeamStorage(rs);
    hide Csc.Valid, Csc.Columns, Dist.Gathered, Team, TeamStorage, Dist.Valid, IsSplit;
    var s := Gathering.AllGatherStructure(TeamStorage(rs));
    g.size, g.baseval, g.sorted, g.keepDiag, g.expanded := rs[0].size, rs[0].baseval, rs[0].sorted, rs[0].keepDiag,
      rs[0].expanded;
    g.colptr, g.rowind := s.colptr, s.rowind;
    assert g.Storage() == s && TeamStorage(rs) == d;
  }

  /** RedistributeSupernodal, called on all ranks: the graph is kept, every rank with whole supernodes,
      exactly when every rank's row counting covers what it sends. */
  method RedistributeSupernodal(rs: seq<DistSparseMatrixGraph>, sn: R.Supernodal)
    requires Team(rs) && R.Redistributable(TeamStorage(rs), sn)
    modifies rs
    ensures rs[0].expanded == old(rs[0].expanded) && rs[0].sorted == old(rs[0].sorted)
    ensures |rs[0].vertexDist| == |rs| + 1
    ensures forall p :: 0 <= p <= |rs| ==> rs[0].vertexDist[p] == old(R.NewSplit(TeamStorage(rs), sn))[p] + 1
    ensures Team(rs) && TeamStorage(rs).Gathered() == old(TeamStorage(rs).Gathered()) <==>
      forall p :: 0 <= p < |rs| ==> R.Counted(old(TeamStorage(rs)), sn, p)
  {
    hide R.Redistributable, R.Counted, R.Redistributed, Csc.Valid, Slices.Gathers, R.NewSplit;
    ghost var was := TeamStorage(rs);
    var d, g := R.RedistributeSupernodal(TeamStorage(rs), sn);
    RedistributedShape(was, sn, g, d);
    StoreAll(rs, d, rs[0].expanded, rs[0].sorted);
  }

  lemma RedistributedShape(d: Dist, sn: R.Supernodal, g: Csc, d': Dist)
    requires R.Redistributable(d, sn) && Slices.Gathers(d, g) && R.Redistributed(d, sn, g, d')
    ensures d'.base == d.base && |d'.ranks| == |d.ranks| && IsSplit(d'.vertexDist, d'.base, |d'.ranks|)
    ensures d'.Size() == d.Size() && OneBase(d')
    ensures forall p :: 0 <= p <= |d.ranks| ==> d'.vertexDist[p] == R.NewSplit(d, sn)[p] + 1
  {
    R.NewDist(d, sn, g, d');
    R.GatheredSize(d, g);
  }
}
