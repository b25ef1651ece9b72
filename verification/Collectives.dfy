/** The collective operations, over the storage of all ranks. */
module Collectives {
  import opened Sequences
  import opened SparseGraphs
  import opened DistGraphs
  import opened Exchange
  import opened Expansion
  import opened DistExpansion
  import opened Restriction
  import opened SortedRows
  import opened Permuting
  import opened PermutingExact
  import opened RoundTrips

  /** Every stored row is sent somewhere. */
  ghost predicate Sendable(rule: Rule, d: Dist, vertexDist: seq<nat>)
    requires d.Valid()
  {
    && |vertexDist| == |d.ranks| + 1
    && forall p :: 0 <= p < |d.ranks| ==> RankSendable(rule, d, vertexDist, p)
  }

  ghost predicate RankSendable(rule: Rule, d: Dist, vertexDist: seq<nat>, p: nat)
    requires d.Valid() && p < |d.ranks| && |vertexDist| == |d.ranks| + 1
  {
    && d.RankValid(p) && RowsFromBase(d.ranks[p])
    && Routed(SentByAll(rule, FirstColumn(d, p), d.ranks[p]), vertexDist, d.base, |d.ranks|)
  }

  /** Rank p's segment of the first k send buffers. */
  function Delivered(bufs: seq<seq<Entry>>, sizes: seq<seq<nat>>, p: nat, k: nat): seq<Entry>
    requires k <= |bufs| == |sizes|
    requires forall q :: 0 <= q < |bufs| ==> p < |sizes[q]| && |bufs[q]| == Prefix(sizes[q], |sizes[q]|)
  {
    if k == 0 then [] else Delivered(bufs, sizes, p, k - 1) + Segment(bufs[k - 1], sizes[k - 1], p)
  }

  ghost predicate PackedRank(rule: Rule, d: Dist, vertexDist: seq<nat>, buf: seq<Entry>, sizes: seq<nat>, q: nat)
    requires d.Valid() && q < |d.ranks| && |vertexDist| == |d.ranks| + 1
  {
    && d.RankValid(q) && |sizes| == |d.ranks| && |buf| == Prefix(sizes, |sizes|)
    && forall p :: 0 <= p < |sizes| ==>
         Segment(buf, sizes, p) == ForRank(SentByAll(rule, FirstColumn(d, q), d.ranks[q]), vertexDist, d.base, p)
  }

  lemma {:induction false} DeliveredIsReceived(rule: Rule, d: Dist, vertexDist: seq<nat>, bufs: seq<seq<Entry>>,
                                               sizes: seq<seq<nat>>, p: nat, k: nat)
    requires d.Valid() && |vertexDist| == |d.ranks| + 1 && |bufs| == |sizes| == |d.ranks| && p < |d.ranks|
    requires k <= |d.ranks|
    requires forall q :: 0 <= q < |d.ranks| ==> PackedRank(rule, d, vertexDist, bufs[q], sizes[q], q)
    ensures forall q :: 0 <= q < |bufs| ==> p < |sizes[q]| && |bufs[q]| == Prefix(sizes[q], |sizes[q]|)
    ensures Delivered(bufs, sizes, p, k) == Received(SentByRanks(rule, d), vertexDist, d.base, p, k)
  {
    assert forall q :: 0 <= q < |bufs| ==> PackedRank(rule, d, vertexDist, bufs[q], sizes[q], q);
    hide Prefix, ForRank, Segment, Dist.Valid, Dist.RankValid, IsSplit;
    if k > 0 {
      DeliveredIsReceived(rule, d, vertexDist, bufs, sizes, p, k - 1);
      assert PackedRank(rule, d, vertexDist, bufs[k - 1], sizes[k - 1], k - 1);
    }
  }

  /** Count, pack and Alltoallv. */
  method ExchangeAll(rule: Rule, d: Dist, vertexDist: seq<nat>) returns (recvs: seq<seq<Entry>>)
    requires d.Valid() && Sendable(rule, d, vertexDist)
    ensures |recvs| == |d.ranks|
    ensures forall p :: 0 <= p < |recvs| ==>
      recvs[p] == Received(SentByRanks(rule, d), vertexDist, d.base, p, |d.ranks|)
  {
    hide Received, SentByRanks, PackedRank, SentByAll, ForRank, Prefix;
    var np := |d.ranks|;
    var bufs: seq<seq<Entry>>, sizes: seq<seq<nat>> := [], [];
    while |bufs| < np
      invariant |bufs| == |sizes| <= np
      invariant forall q :: 0 <= q < |bufs| ==> PackedRank(rule, d, vertexDist, bufs[q], sizes[q], q)
    {
      var q := |bufs|;
      assert RankSendable(rule, d, vertexDist, q);
      var counted := CountPass(d.ranks[q], FirstColumn(d, q), rule, vertexDist, np);
      var packed := PackPass(d.ranks[q], FirstColumn(d, q), rule, vertexDist, counted[..]);
      RankIsPacked(rule, d, vertexDist, packed[..], counted[..], q);
      bufs, sizes := bufs + [packed[..]], sizes + [counted[..]];
    }
    recvs := [];
    while |recvs| < np
      invariant |recvs| <= np
      invariant forall p :: 0 <= p < |recvs| ==> recvs[p] == Received(SentByRanks(rule, d), vertexDist, d.base, p, np)
    {
      DeliveredIsReceived(rule, d, vertexDist, bufs, sizes, |recvs|, np);
      recvs := recvs + [Delivered(bufs, sizes, |recvs|, np)];
    }
  }

  lemma RankIsPacked(rule: Rule, d: Dist, vertexDist: seq<nat>, buf: seq<Entry>, sizes: seq<nat>, q: nat)
    requires d.Valid() && q < |d.ranks| && |vertexDist| == |d.ranks| + 1 && d.RankValid(q)
    requires |sizes| == |d.ranks| && |buf| == Prefix(sizes, |sizes|)
    requires forall p :: 0 <= p < |sizes| ==>
      Segment(buf, sizes, p) == ForRank(SentByAll(rule, FirstColumn(d, q), d.ranks[q]), vertexDist, d.base, p)
    ensures PackedRank(rule, d, vertexDist, buf, sizes, q)
  {
  }

  // ------------------------------------------------------------------------------------------
  // ExpandSymmetric.
  // ------------------------------------------------------------------------------------------

  lemma ExpandSendable(d: Dist)
    requires d.Valid() && RowsInRange(d)
    ensures Sendable(ExpandRule(), d, d.vertexDist)
  {
    forall p | 0 <= p < |d.ranks|
      ensures RankSendable(ExpandRule(), d, d.vertexDist, p)
    {
      assert d.RankValid(p) && LocalRowsInRange(d.ranks[p], d.Size());
      LocalSentInRange(d.ranks[p], FirstColumn(d, p), d.Size());
      RoutedInRange(SentByAll(ExpandRule(), FirstColumn(d, p), d.ranks[p]), d.vertexDist, d.base, |d.ranks|, d.Size());
    }
  }

  /** Every rank after the exchange and the local expansion. */
  method ExpandRanks(d: Dist) returns (d': Dist)
    requires d.Valid() && RowsInRange(d)
    ensures RanksExpanded(d, d')
  {
    hide Received, SentByRanks, IsExpanded, Sendable;
    ExpandSendable(d);
    var recvs := ExchangeAll(ExpandRule(), d, d.vertexDist);
    var ranks: seq<Csc> := [];
    while |ranks| < |d.ranks|
      invariant |ranks| <= |d.ranks|
      invariant forall p :: 0 <= p < |ranks| ==> RankExpanded(d, ranks[p], p)
    {
      var p := |ranks|;
      RankReceives(ExpandRule(), d, d.vertexDist, p);
      var s := ExpandLocal(d.ranks[p], FirstColumn(d, p), recvs[p]);
      ranks := ranks + [s];
    }
    d' := Dist(d.base, d.vertexDist, ranks);
    ExpandedRanksValid(d, d');
  }

  lemma RankReceives(rule: Rule, d: Dist, vertexDist: seq<nat>, p: nat)
    requires d.Valid() && p < |d.ranks| && IsSplit(vertexDist, d.base, |d.ranks|)
    ensures d.RankValid(p)
    ensures ForColumns(Received(SentByRanks(rule, d), vertexDist, d.base, p, |d.ranks|),
                       vertexDist[p] - d.base, vertexDist[p + 1] - vertexDist[p])
  {
    hide ForRank;
    var sent := SentByRanks(rule, d);
    assert d.RankValid(p);
    ReceivedIsPart(sent, vertexDist, d.base, p, |d.ranks|);
    ForRankDestination(Concatenated(sent, |d.ranks|), vertexDist, d.base, p);
  }

  lemma ExpandedRanksValid(d: Dist, d': Dist)
    requires d.Valid() && d'.base == d.base && d'.vertexDist == d.vertexDist && |d'.ranks| == |d.ranks|
    requires forall p :: 0 <= p < |d.ranks| ==> RankExpanded(d, d'.ranks[p], p)
    ensures RanksExpanded(d, d')
  {
    hide Received, SentByRanks;
    forall p | 0 <= p < |d'.ranks|
      ensures d'.RankValid(p)
    {
      assert RankExpanded(d, d'.ranks[p], p) && d.RankValid(p);
    }
  }

  /** Sorts every rank's columns. */
  method SortRanks(d: Dist) returns (d': Dist)
    requires d.Valid()
    ensures d'.Valid() && d'.base == d.base && d'.vertexDist == d.vertexDist && |d'.ranks| == |d.ranks|
    ensures d'.Gathered() == SortedColumns(d.Gathered())
  {
    var ranks: seq<Csc> := [];
    while |ranks| < |d.ranks|
      invariant |ranks| <= |d.ranks|
      invariant forall p :: 0 <= p < |ranks| ==> RankSorted(d, ranks[p], p)
    {
      assert d.RankValid(|ranks|);
      var s := SortEdges(d.ranks[|ranks|]);
      ranks := ranks + [s];
    }
    d' := Dist(d.base, d.vertexDist, ranks);
    SortedRanksGather(d, d');
  }

  ghost predicate RankSorted(d: Dist, s: Csc, p: nat)
    requires d.Valid() && p < |d.ranks|
  {
    && d.RankValid(p) && s.Valid() && s.base == d.base && s.colptr == d.ranks[p].colptr
    && s.Columns() == SortedColumns(d.ranks[p].Columns())
  }

  lemma SortedRanksGather(d: Dist, d': Dist)
    requires d.Valid() && d'.base == d.base && d'.vertexDist == d.vertexDist && |d'.ranks| == |d.ranks|
    requires forall p :: 0 <= p < |d.ranks| ==> RankSorted(d, d'.ranks[p], p)
    ensures d'.Valid() && d'.Gathered() == SortedColumns(d.Gathered())
  {
    hide Sorted;
    forall p | 0 <= p < |d'.ranks|
      ensures d'.RankValid(p)
    {
      assert RankSorted(d, d'.ranks[p], p) && d.RankValid(p);
    }
    forall c | 0 <= c < d.Size()
      ensures d'.Gathered()[c] == Sorted(d.Gathered()[c])
    {
      SortedRankColumn(d, d', c);
    }
  }

  lemma SortedRankColumn(d: Dist, d': Dist, c: nat)
    requires d.Valid() && d'.Valid() && d'.base == d.base && d'.vertexDist == d.vertexDist && |d'.ranks| == |d.ranks|
    requires forall p :: 0 <= p < |d.ranks| ==> RankSorted(d, d'.ranks[p], p)
    requires c < d.Size()
    ensures d'.Gathered()[c] == Sorted(d.Gathered()[c])
  {
    hide Sorted;
    OwnerExists(d.vertexDist, d.base, |d.ranks|, c + d.base, 0);
    var p := Owner(d.vertexDist, c + d.base, 0);
    var l := c + d.base - d.vertexDist[p];
    assert d.RankValid(p) && d'.RankValid(p) && RankSorted(d, d'.ranks[p], p);
    d.GatheredColumn(p, l);
    d'.GatheredColumn(p, l);
  }

  /** The whole collective call on a graph that is not expanded yet. */
  method ExpandSymmetric(d: Dist, sorted: bool) returns (d': Dist)
    requires d.Valid() && RowsInRange(d)
    ensures d'.Valid() && d'.base == d.base && d'.vertexDist == d.vertexDist && |d'.ranks| == |d.ranks|
    ensures sorted ==> RanksExpanded(d, d')
    ensures d'.Gathered() ==
      var full := ExpandedColumns(d.Gathered(), d.base); if sorted then full else SortedColumns(full)
  {
    hide RanksExpanded, ExpandedColumns, SortedColumns;
    d' := ExpandRanks(d);
    GatheredExpansion(d, d');
    RanksExpandedShape(d, d');
    if !sorted {
      d' := SortRanks(d');
    }
  }

  lemma RanksExpandedShape(d: Dist, d': Dist)
    requires d.Valid() && RanksExpanded(d, d')
    ensures d'.Valid() && d'.base == d.base && d'.vertexDist == d.vertexDist && |d'.ranks| == |d.ranks|
  {
  }

  // ------------------------------------------------------------------------------------------
  // permute_.
  // ------------------------------------------------------------------------------------------

  lemma SentRouted(lab: seq<nat>, keepDiag: bool, expanded: bool, d: Dist, vertexDist: seq<nat>, p: nat)
    requires d.Valid() && RowsInRange(d) && IsLabelling(lab) && p < |d.ranks|
    requires IsSplit(vertexDist, d.base, |d.ranks|) && vertexDist[|d.ranks|] == d.base + |lab|
    ensures RankSendable(PermuteRule(lab, keepDiag, expanded), d, vertexDist, p)
  {
    var rule := PermuteRule(lab, keepDiag, expanded);
    assert d.RankValid(p) && LocalRowsInRange(d.ranks[p], d.Size());
    var s := d.ranks[p];
    SentFits(lab, keepDiag, expanded, s.base, FirstColumn(d, p), s.Columns(), |s.colptr| - 1);
    RoutedInRange(SentByAll(rule, FirstColumn(d, p), s), vertexDist, d.base, |d.ranks|, |lab|);
  }

  /** The whole collective call: relabel, exchange, store, and sort when the graph is marked so. */
  method Permute(d: Dist, lab: seq<nat>, newVertexDist: seq<nat>, keepDiag: bool, expanded: bool, sorted: bool)
    returns (d': Dist)
    requires d.Valid() && RowsInRange(d) && IsLabelling(lab) && |lab| == d.Size()
    requires IsSplit(newVertexDist, d.base, |d.ranks|) && newVertexDist[|d.ranks|] == d.base + d.Size()
    ensures d'.Valid() && d'.base == d.base && d'.vertexDist == newVertexDist && |d'.ranks| == |d.ranks|
    ensures d'.Gathered() == PermutedTo(lab, keepDiag, expanded, sorted, d.base, d.Gathered())
  {
    hide RanksLanded, LandedColumns, SortedColumns;
    d' := LandRanks(d, lab, newVertexDist, keepDiag, expanded);
    GatheredLanding(PermuteRule(lab, keepDiag, expanded), d, d');
    LandedShape(PermuteRule(lab, keepDiag, expanded), d, d');
    if sorted {
      d' := SortRanks(d');
    }
  }

  lemma LandedShape(rule: Rule, d: Dist, d': Dist)
    requires d.Valid() && RanksLanded(rule, d, d')
    ensures d'.Valid() && d'.base == d.base && |d'.ranks| == |d.ranks|
  {
  }

  method LandRanks(d: Dist, lab: seq<nat>, newVertexDist: seq<nat>, keepDiag: bool, expanded: bool) returns (d': Dist)
    requires d.Valid() && RowsInRange(d) && IsLabelling(lab) && |lab| == d.Size()
    requires IsSplit(newVertexDist, d.base, |d.ranks|) && newVertexDist[|d.ranks|] == d.base + d.Size()
    ensures RanksLanded(PermuteRule(lab, keepDiag, expanded), d, d') && d'.vertexDist == newVertexDist
  {
    hide Received, SentByRanks, IsLanded, RankSendable, RowsInRange;
    var rule := PermuteRule(lab, keepDiag, expanded);
    forall p | 0 <= p < |d.ranks|
      ensures RankSendable(rule, d, newVertexDist, p)
    {
      SentRouted(lab, keepDiag, expanded, d, newVertexDist, p);
    }
    var recvs := ExchangeAll(rule, d, newVertexDist);
    var ranks: seq<Csc> := [];
    while |ranks| < |d.ranks|
      invariant |ranks| <= |d.ranks|
      invariant forall p :: 0 <= p < |ranks| ==> Landing(rule, d, newVertexDist, ranks[p], p)
    {
      var p := |ranks|;
      RankReceives(rule, d, newVertexDist, p);
      var s := LandLocal(recvs[p], d.base, newVertexDist[p] - d.base, newVertexDist[p + 1] - newVertexDist[p]);
      ranks := ranks + [s];
    }
    d' := Dist(d.base, newVertexDist, ranks);
    LandedRanksValid(rule, d, d');
  }

  ghost predicate Landing(rule: Rule, d: Dist, vertexDist: seq<nat>, s: Csc, p: nat)
    requires d.Valid() && p < |d.ranks| && IsSplit(vertexDist, d.base, |d.ranks|)
  {
    IsLanded(Received(SentByRanks(rule, d), vertexDist, d.base, p, |d.ranks|),
             d.base, vertexDist[p] - d.base, vertexDist[p + 1] - vertexDist[p], s)
  }

  lemma LandedRanksValid(rule: Rule, d: Dist, d': Dist)
    requires d.Valid() && d'.base == d.base && |d'.ranks| == |d.ranks|
    requires IsSplit(d'.vertexDist, d.base, |d.ranks|) && d'.vertexDist[|d.ranks|] == d.base + d.Size()
    requires forall p :: 0 <= p < |d.ranks| ==> Landing(rule, d, d'.vertexDist, d'.ranks[p], p)
    ensures RanksLanded(rule, d, d')
  {
    hide Received, SentByRanks;
    forall p | 0 <= p < |d'.ranks|
      ensures d'.RankValid(p)
    {
      assert Landing(rule, d, d'.vertexDist, d'.ranks[p], p);
    }
    forall p | 0 <= p < |d.ranks|
      ensures RankLanded(rule, d, d', p)
    {
      assert Landing(rule, d, d'.vertexDist, d'.ranks[p], p);
    }
  }

  /** Permuting a distributed graph that is marked as sorted by a permutation and back, over whatever splits
      in between, restores every rank's arrays exactly when the storage is permutable and really sorted. */
  lemma DistributedRoundTrip(d: Dist, mid: Dist, d': Dist, lab: seq<nat>, inv: seq<nat>, keepDiag: bool, expanded: bool)
    requires d.Valid() && mid.Valid() && d'.Valid() && InverseLabels(lab, inv) && |lab| == d.Size()
    requires RowsInside(d.Gathered(), d.base)
    requires mid.base == d.base && mid.Gathered() == PermutedTo(lab, keepDiag, expanded, true, d.base, d.Gathered())
    requires d'.base == d.base && d'.vertexDist == d.vertexDist && |d'.ranks| == |d.ranks|
    requires d'.Gathered() == PermutedTo(inv, keepDiag, expanded, true, mid.base, mid.Gathered())
    ensures d' == d <==> Permutable(d.Gathered(), d.base, keepDiag, expanded) && AllSorted(d.Gathered())
  {
    hide Permutable, AllSorted, PermutedTo, RowsInside;
    PermutationRoundTrip(lab, inv, keepDiag, expanded, d.base, d.Gathered());
    if d'.Gathered() == d.Gathered() {
      DistDetermined(d', d);
    }
  }

  // ------------------------------------------------------------------------------------------
  // ToSymmetric.
  // ------------------------------------------------------------------------------------------

  /** ToSymmetric needs no exchange: each rank restricts its own columns. */
  method ToSymmetric(d: Dist, keepDiag: bool) returns (ranks: seq<Csc>)
    requires d.Valid()
    ensures |ranks| == |d.ranks|
    ensures forall p :: 0 <= p < |ranks| ==>
      d.RankValid(p) && IsRestricted(d.ranks[p], d.vertexDist[p], keepDiag, ranks[p])
  {
    hide IsRestricted;
    ranks := [];
    while |ranks| < |d.ranks|
      invariant |ranks| <= |d.ranks|
      invariant forall p :: 0 <= p < |ranks| ==>
        d.RankValid(p) && IsRestricted(d.ranks[p], d.vertexDist[p], keepDiag, ranks[p])
    {
      assert d.RankValid(|ranks|);
      var t := RestrictLocal(d.ranks[|ranks|], d.vertexDist[|ranks|], keepDiag);
      ranks := ranks + [t];
    }
  }

  lemma {:induction false} PartIsUpper(all: seq<Entry>, vertexDist: seq<nat>, base: nat, p: nat)
    requires |vertexDist| >= 1 && Upper(all)
    ensures Upper(ForRank(all, vertexDist, base, p))
  {
    ForRankDestination(all, vertexDist, base, p);
  }

  /** ToSymmetric after ExpandSymmetric restores colptr and rowind exactly on every rank of a graph
      marked as sorted, if and only if the rank stores no diagonal entry that is not to be kept. */
  lemma RestrictUndoesExpandEverywhere(d: Dist, d': Dist, keepDiag: bool, ranks: seq<Csc>, p: nat)
    requires d.Valid() && RanksExpanded(d, d') && |ranks| == |d.ranks| && p < |d.ranks|
    requires d.RankValid(p) && IsLower(d.ranks[p].Columns(), d.vertexDist[p])
    requires d'.RankValid(p) && IsRestricted(d'.ranks[p], d'.vertexDist[p], keepDiag, ranks[p])
    ensures ranks[p] == d.ranks[p] <==> DiagonalCounted(d.ranks[p].Columns(), d.vertexDist[p], keepDiag)
  {
    hide ForRank, Sent, Received, IsExpanded, IsRestricted, DiagonalCounted;
    var sent := SentByRanks(ExpandRule(), d);
    var recv := Received(sent, d.vertexDist, d.base, p, |d.ranks|);
    ConcatenatedIsGathered(ExpandRule(), d, |d.ranks|);
    ReceivedIsPart(sent, d.vertexDist, d.base, p, |d.ranks|);
    SentIsUpper(d.base, 0, d.Gathered(), |d.Gathered()|);
    PartIsUpper(Concatenated(sent, |d.ranks|), d.vertexDist, d.base, p);
    assert RankExpanded(d, d'.ranks[p], p);
    RestrictUndoesExpand(d.ranks[p], FirstColumn(d, p), recv, d'.ranks[p], keepDiag, ranks[p]);
  }

  /** A column of the sorted expansion, on the rank that owns it. */
  lemma SortedRankUndone(d: Dist, d': Dist, p: nat, l: nat)
    requires d.Valid() && d'.Valid() && d'.base == d.base && d'.vertexDist == d.vertexDist && |d'.ranks| == |d.ranks|
    requires d'.Gathered() == SortedColumns(ExpandedColumns(d.Gathered(), d.base))
    requires p < |d.ranks| && d.RankValid(p) && d'.RankValid(p) && l < |d.ranks[p].colptr| - 1
    requires IsLower(d.ranks[p].Columns(), d.vertexDist[p])
    ensures Lower(d'.ranks[p].Columns()[l], d.vertexDist[p] + l) == Sorted(d.ranks[p].Columns()[l])
    ensures d.vertexDist[p] + l in d'.ranks[p].Columns()[l] <==> d.vertexDist[p] + l in d.ranks[p].Columns()[l]
  {
    hide Lower, Sorted, Sent, Fill, IsLower, Upper;
    var cols, first := d.ranks[p].Columns(), FirstColumn(d, p);
    var sent := Sent(ExpandRule(), d.base, 0, d.Gathered(), |d.Gathered()|);
    d.GatheredColumn(p, l);
    d'.GatheredColumn(p, l);
    assert ExpandedColumn(d.Gathered(), d.base, first + l) == Content(cols, first, sent, d.base, l);
    SentIsUpper(d.base, 0, d.Gathered(), |d.Gathered()|);
    SortedUndoneColumn(cols, first, sent, d.base, l);
  }

  /** When the graph was not marked as sorted, every rank gets its pointers back and its columns
      sorted, under the same condition. */
  lemma RestrictUndoesSortedExpandEverywhere(d: Dist, d': Dist, keepDiag: bool, ranks: seq<Csc>, p: nat)
    requires d.Valid() && d'.Valid() && d'.base == d.base && d'.vertexDist == d.vertexDist && |d'.ranks| == |d.ranks|
    requires d'.Gathered() == SortedColumns(ExpandedColumns(d.Gathered(), d.base))
    requires |ranks| == |d.ranks| && p < |d.ranks|
    requires d.RankValid(p) && IsLower(d.ranks[p].Columns(), d.vertexDist[p])
    requires d'.RankValid(p) && IsRestricted(d'.ranks[p], d'.vertexDist[p], keepDiag, ranks[p])
    ensures SortedInPlace(d.ranks[p], ranks[p]) <==> DiagonalCounted(d.ranks[p].Columns(), d.vertexDist[p], keepDiag)
  {
    hide Lower, Sorted, IsLower, IsRestricted, ExpandedColumn, SortedInPlace, DiagonalCounted;
    forall l | 0 <= l < |d.ranks[p].colptr| - 1
      ensures Lower(d'.ranks[p].Columns()[l], d.vertexDist[p] + l) == SortedColumns(d.ranks[p].Columns())[l]
      ensures d.vertexDist[p] + l in d'.ranks[p].Columns()[l] <==> d.vertexDist[p] + l in d.ranks[p].Columns()[l]
    {
      SortedRankUndone(d, d', p, l);
    }
    SortedStorage(d.ranks[p], d'.ranks[p], d.vertexDist[p], keepDiag, ranks[p]);
  }

  /** Gathering after the distributed expansion and expanding the gathered graph give the same arrays,
      whether the graph was marked as sorted or is sorted on the way. */
  lemma ExpansionCommutesWithGathering(d: Dist, d': Dist, sorted: bool, g: Csc, afterGather: Csc)
    requires d.Valid() && d'.Valid() && d'.base == d.base && d'.Size() == d.Size()
    requires g.Valid() && g.base == d'.base && |g.colptr| == d'.Size() + 1 && g.Columns() == d'.Gathered()
    requires afterGather.Valid() && afterGather.base == d.base && |afterGather.colptr| == d.Size() + 1
    requires var full := ExpandedColumns(d.Gathered(), d.base);
      d'.Gathered() == afterGather.Columns() == if sorted then full else SortedColumns(full)
    ensures g.colptr == afterGather.colptr && g.rowind == afterGather.rowind
  {
    CscDetermined(g, afterGather);
  }
}
