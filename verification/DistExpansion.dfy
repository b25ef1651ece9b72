/** ExpandSymmetric on a distributed graph against ExpandSymmetric on the gathered graph. */
module DistExpansion {
  import opened Sequences
  import opened SparseGraphs
  import opened DistGraphs
  import opened Exchange
  import opened Expansion

  /** An entry below the diagonal goes, transposed, to the owner of its row. */
  function ExpandRule(): Rule {
    (col: nat, row: nat) => if row > col then Some(Entry(row, col)) else None
  }

  /** Rows are vertices of the graph. */
  ghost predicate RowsInRange(d: Dist)
    requires d.Valid()
  {
    forall p :: 0 <= p < |d.ranks| ==> LocalRowsInRange(d.ranks[p], d.Size())
  }

  ghost predicate LocalRowsInRange(s: Csc, n: nat) {
    forall j :: 0 <= j < |s.rowind| ==> s.base <= s.rowind[j] < s.base + n
  }

  /** First column of rank p, counted from 0. */
  function FirstColumn(d: Dist, p: nat): nat
    requires p < |d.ranks| && IsSplit(d.vertexDist, d.base, |d.ranks|)
  {
    d.vertexDist[p] - d.base
  }

  /** Everything each rank sends. */
  ghost function SentByRanks(rule: Rule, d: Dist): (sent: seq<seq<Entry>>)
    requires d.Valid()
    ensures |sent| == |d.ranks|
    ensures forall p :: 0 <= p < |sent| ==> d.RankValid(p) && sent[p] == SentByAll(rule, FirstColumn(d, p), d.ranks[p])
  {
    seq(|d.ranks|, p requires 0 <= p < |d.ranks| =>
      assert d.RankValid(p);
      SentByAll(rule, FirstColumn(d, p), d.ranks[p]))
  }

  // ------------------------------------------------------------------------------------------
  // The messages of all ranks, in rank order, are the messages of the gathered graph.
  // ------------------------------------------------------------------------------------------

  lemma {:induction false} SentConcat(rule: Rule, base: nat, first: nat, a: Columns, b: Columns, k: nat)
    requires k <= |b|
    ensures Sent(rule, base, first, a + b, |a| + k) ==
            Sent(rule, base, first, a, |a|) + Sent(rule, base, first + |a|, b, k)
    decreases k
  {
    hide SentFor;
    if k == 0 {
      SentPrefix(rule, base, first, a, b, |a|);
    } else {
      SentConcat(rule, base, first, a, b, k - 1);
      assert (a + b)[|a| + k - 1] == b[k - 1];
    }
  }

  lemma {:induction false} SentPrefix(rule: Rule, base: nat, first: nat, a: Columns, b: Columns, k: nat)
    requires k <= |a|
    ensures Sent(rule, base, first, a + b, k) == Sent(rule, base, first, a, k)
    decreases k
  {
    if k > 0 { SentPrefix(rule, base, first, a, b, k - 1); }
  }

  lemma NothingSent(rule: Rule, base: nat, first: nat, cols: Columns)
    ensures Sent(rule, base, first, cols, 0) == []
  {
  }

  lemma {:induction false} ConcatenatedIsGathered(rule: Rule, d: Dist, k: nat)
    requires d.Valid() && k <= |d.ranks|
    ensures Concatenated(SentByRanks(rule, d), k) == Sent(rule, d.base, 0, d.Prefix(k), |d.Prefix(k)|)
  {
    hide Sent, SentFor;
    if k == 0 {
      NothingSent(rule, d.base, 0, []);
    } else {
      ConcatenatedIsGathered(rule, d, k - 1);
      assert d.RankValid(k - 1);
      FinishSent(rule, FirstColumn(d, k - 1), d.ranks[k - 1]);
      var a, b := d.Prefix(k - 1), d.ranks[k - 1].Columns();
      assert d.Prefix(k) == a + b;
      SentConcat(rule, d.base, 0, a, b, |b|);
    }
  }

  /** The sender side and the owner side of a message sequence agree on each column. */
  lemma {:induction false} FillForRank(all: seq<Entry>, vertexDist: seq<nat>, base: nat, p: nat, c: nat)
    requires |vertexDist| >= 1 && Destination(vertexDist, base, c) == p
    ensures Fill(ForRank(all, vertexDist, base, p), base, c) == Fill(all, base, c)
    decreases |all|
  {
    if all != [] {
      hide Destination, Fill, ForRank;
      var e, front := all[|all| - 1], all[..|all| - 1];
      assert all == front + [e];
      FillForRank(front, vertexDist, base, p, c);
      ForRankOne(front, e, vertexDist, base, p);
      FillOne(front, e, base, c);
      if Destination(vertexDist, base, e.col) == p {
        FillOne(ForRank(front, vertexDist, base, p), e, base, c);
      } else {
        assert e.col != c && ForRank(all, vertexDist, base, p) == ForRank(front, vertexDist, base, p);
      }
    }
  }

  lemma {:induction false} ForRankDestination(all: seq<Entry>, vertexDist: seq<nat>, base: nat, p: nat)
    requires |vertexDist| >= 1
    ensures forall e :: e in ForRank(all, vertexDist, base, p) ==> e in all && Destination(vertexDist, base, e.col) == p
    decreases |all|
  {
    if all != [] { ForRankDestination(all[..|all| - 1], vertexDist, base, p); }
  }

  // ------------------------------------------------------------------------------------------
  // The expansion of the gathered graph.
  // ------------------------------------------------------------------------------------------

  /** Column c of the expanded graph: new rows in front of the old ones. */
  ghost function ExpandedColumn(cols: Columns, base: nat, c: nat): seq<nat>
    requires c < |cols|
  {
    Content(cols, 0, Sent(ExpandRule(), base, 0, cols, |cols|), base, c)
  }

  ghost function ExpandedColumns(cols: Columns, base: nat): (r: Columns)
    ensures |r| == |cols| && forall c :: 0 <= c < |cols| ==> r[c] == ExpandedColumn(cols, base, c)
  {
    seq(|cols|, c requires 0 <= c < |cols| => ExpandedColumn(cols, base, c))
  }

  /** Each rank has put in what it received. */
  ghost predicate RanksExpanded(d: Dist, d': Dist)
    requires d.Valid()
  {
    && d'.Valid() && d'.base == d.base && d'.vertexDist == d.vertexDist && |d'.ranks| == |d.ranks|
    && forall p :: 0 <= p < |d.ranks| ==> RankExpanded(d, d'.ranks[p], p)
  }

  ghost predicate RankExpanded(d: Dist, s': Csc, p: nat)
    requires d.Valid() && p < |d.ranks|
  {
    && d.RankValid(p)
    && IsExpanded(d.ranks[p], FirstColumn(d, p),
                  Received(SentByRanks(ExpandRule(), d), d.vertexDist, d.base, p, |d.ranks|), s')
  }

  /** What a rank receives fills its columns as the messages of the whole gathered graph would. */
  lemma ReceivedFill(d: Dist, p: nat, l: nat)
    requires d.Valid() && p < |d.ranks| && d.RankValid(p) && l < |d.ranks[p].colptr| - 1
    ensures Fill(Received(SentByRanks(ExpandRule(), d), d.vertexDist, d.base, p, |d.ranks|), d.base,
                 FirstColumn(d, p) + l)
         == Fill(Sent(ExpandRule(), d.base, 0, d.Gathered(), |d.Gathered()|), d.base, FirstColumn(d, p) + l)
  {
    hide Sent, Fill, Received, ForRank, SentByRanks, Concatenated;
    var sent := SentByRanks(ExpandRule(), d);
    var all := Sent(ExpandRule(), d.base, 0, d.Gathered(), |d.Gathered()|);
    var c := FirstColumn(d, p) + l;
    ConcatenatedIsGathered(ExpandRule(), d, |d.ranks|);
    ReceivedIsPart(sent, d.vertexDist, d.base, p, |d.ranks|);
    OwnerIs(d.vertexDist, d.base, |d.ranks|, c + d.base, 0, p);
    FillForRank(all, d.vertexDist, d.base, p, c);
  }

  lemma RankColumn(d: Dist, d': Dist, p: nat, l: nat)
    requires d.Valid() && RanksExpanded(d, d') && p < |d.ranks| && d.RankValid(p) && l < |d.ranks[p].colptr| - 1
    ensures FirstColumn(d, p) + l < |d.Gathered()| && d'.RankValid(p) && l < |d'.ranks[p].colptr| - 1
    ensures d'.ranks[p].Columns()[l] == ExpandedColumn(d.Gathered(), d.base, FirstColumn(d, p) + l)
  {
    hide Sent, Fill, Received, SentByRanks;
    ReceivedFill(d, p, l);
    d.GatheredColumn(p, l);
    assert d'.RankValid(p) && RankExpanded(d, d'.ranks[p], p);
  }

  /** Distributed expansion refines sequential expansion: the gathered columns are the same, entry
      by entry, for any number of ranks and any split. */
  lemma GatheredExpansion(d: Dist, d': Dist)
    requires d.Valid() && RanksExpanded(d, d')
    ensures d'.Gathered() == ExpandedColumns(d.Gathered(), d.base)
  {
    assert d'.Valid() && d'.vertexDist == d.vertexDist && |d'.ranks| == |d.ranks| && d'.base == d.base;
    hide RankExpanded, ExpandedColumn, RanksExpanded;
    var G, G' := d.Gathered(), d'.Gathered();
    forall c | 0 <= c < |G'|
      ensures G'[c] == ExpandedColumn(G, d.base, c)
    {
      ExpandedAt(d, d', c);
    }
  }

  lemma ExpandedAt(d: Dist, d': Dist, c: nat)
    requires d.Valid() && d'.Valid() && RanksExpanded(d, d') && c < |d'.Gathered()|
    ensures d'.Gathered()[c] == ExpandedColumn(d.Gathered(), d.base, c)
  {
    assert d'.vertexDist == d.vertexDist && |d'.ranks| == |d.ranks| && d'.base == d.base;
    hide RanksExpanded, ExpandedColumn;
    var p, l := PlaceOf(d, c);
    assert d'.RankValid(p) && l < |d'.ranks[p].colptr| - 1;
    hide *;
    RankColumn(d, d', p, l);
    d'.GatheredColumn(p, l);
  }

  /** Where a column is stored. */
  lemma PlaceOf(d: Dist, c: nat) returns (p: nat, l: nat)
    requires d.Valid() && c < d.Size()
    ensures p < |d.ranks| && d.RankValid(p) && l < |d.ranks[p].colptr| - 1 && c == d.vertexDist[p] - d.base + l
  {
    hide Csc.Valid;
    OwnerExists(d.vertexDist, d.base, |d.ranks|, c + d.base, 0);
    p := Owner(d.vertexDist, c + d.base, 0);
    l := c + d.base - d.vertexDist[p];
    assert d.RankValid(p);
  }

  /** Rows in range are sent to columns in range. */
  lemma {:induction false} SentForInRange(base: nat, col: nat, rows: seq<nat>, n: nat)
    requires forall j :: 0 <= j < |rows| ==> base <= rows[j] < base + n
    ensures forall e :: e in SentFor(ExpandRule(), base, col, rows) ==> e.col < n
    decreases |rows|
  {
    if rows != [] { SentForInRange(base, col, rows[..|rows| - 1], n); }
  }

  lemma {:induction false} SentInRange(base: nat, first: nat, cols: Columns, k: nat, n: nat)
    requires k <= |cols|
    requires forall c, j :: 0 <= c < |cols| && 0 <= j < |cols[c]| ==> base <= cols[c][j] < base + n
    ensures forall e :: e in Sent(ExpandRule(), base, first, cols, k) ==> e.col < n
    decreases k
  {
    if k > 0 {
      SentInRange(base, first, cols, k - 1, n);
      SentForInRange(base, first + k - 1, cols[k - 1], n);
    }
  }

  lemma LocalSentInRange(s: Csc, first: nat, n: nat)
    requires s.Valid() && LocalRowsInRange(s, n)
    ensures RowsFromBase(s)
    ensures forall e :: e in SentByAll(ExpandRule(), first, s) ==> e.col < n
  {
    SentInRange(s.base, first, s.Columns(), |s.colptr| - 1, n);
  }

  lemma RoutedInRange(all: seq<Entry>, vertexDist: seq<nat>, base: nat, np: nat, n: nat)
    requires np >= 1 && IsSplit(vertexDist, base, np) && vertexDist[np] == base + n
    requires forall e :: e in all ==> e.col < n
    ensures Routed(all, vertexDist, base, np)
  {
    forall e | e in all
      ensures Destination(vertexDist, base, e.col) < np
    {
      OwnerExists(vertexDist, base, np, e.col + base, 0);
    }
  }
}
