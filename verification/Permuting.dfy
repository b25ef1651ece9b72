/** permute_: every stored entry is relabelled and sent to the owner of its new column. */
module Permuting {
  import opened Sequences
  import opened SparseGraphs
  import opened DistGraphs
  import opened Exchange
  import Expansion
  import opened DistExpansion

  /** New labels of the vertices, all counted from 0. */
  ghost predicate IsLabelling(lab: seq<nat>) {
    && (forall v :: 0 <= v < |lab| ==> lab[v] < |lab|)
    && (forall u, v :: 0 <= u < |lab| && 0 <= v < |lab| && lab[u] == lab[v] ==> u == v)
  }

  /** In lower-triangular storage an entry that lands above the diagonal is transposed, and a
      diagonal one is dropped unless it is to be kept; in full storage everything is sent. */
  function PermuteRule(lab: seq<nat>, keepDiag: bool, expanded: bool): Rule {
    (col: nat, row: nat) =>
      if col < |lab| && row < |lab| then
        var permCol, permRow := lab[col], lab[row];
        if permRow < permCol && !expanded then Some(Entry(permRow, permCol))
        else if permRow > permCol || (permRow == permCol && keepDiag) || expanded then Some(Entry(permCol, permRow))
        else None
      else None
  }

  // ------------------------------------------------------------------------------------------
  // Storing what was received: count, sum up, and fill each column from its start.
  // ------------------------------------------------------------------------------------------

  /** The rows received for column c, in order of arrival. */
  function Landed(recv: seq<Entry>, base: nat, c: nat): (rows: seq<nat>)
    decreases |recv|
  {
    if recv == [] then [] else
      var e := recv[|recv| - 1];
      Landed(recv[..|recv| - 1], base, c) + if e.col == c then [e.row + base] else []
  }

  lemma LandedOne(a: seq<Entry>, e: Entry, base: nat, c: nat)
    ensures Landed(a + [e], base, c) == Landed(a, base, c) + if e.col == c then [e.row + base] else []
  {
    assert (a + [e])[..|a|] == a;
  }

  lemma {:induction false} LandedAppend(a: seq<Entry>, b: seq<Entry>, base: nat, c: nat)
    ensures Landed(a + b, base, c) == Landed(a, base, c) + Landed(b, base, c)
    decreases |b|
  {
    if b == [] {
      assert a + b == a;
    } else {
      assert (a + b)[..|a + b| - 1] == a + b[..|b| - 1];
      LandedAppend(a, b[..|b| - 1], base, c);
    }
  }

  lemma LandedGrows(a: seq<Entry>, all: seq<Entry>, base: nat, c: nat)
    requires a <= all
    ensures |Landed(a, base, c)| <= |Landed(all, base, c)|
  {
    assert all == a + all[|a|..];
    LandedAppend(a, all[|a|..], base, c);
  }

  ghost function LandedWidths(recv: seq<Entry>, base: nat, first: nat, nc: nat): (w: seq<nat>)
    ensures |w| == nc && forall l :: 0 <= l < nc ==> w[l] == |Landed(recv, base, first + l)|
  {
    seq(nc, l requires 0 <= l < nc => |Landed(recv, base, first + l)|)
  }

  method CountLanded(recv: seq<Entry>, base: nat, first: nat, nc: nat) returns (newColptr: array<nat>)
    requires Expansion.ForColumns(recv, first, nc)
    ensures fresh(newColptr) && newColptr.Length == nc + 1
    ensures forall c :: 0 <= c <= nc ==> newColptr[c] == base + Prefix(LandedWidths(recv, base, first, nc), c)
  {
    newColptr := CountEntries(recv, base, first, nc);
    newColptr[0] := base;
    Expansion.SumUp(newColptr, LandedWidths(recv, base, first, nc), base);
  }

  method CountEntries(recv: seq<Entry>, base: nat, first: nat, nc: nat) returns (counts: array<nat>)
    requires Expansion.ForColumns(recv, first, nc)
    ensures fresh(counts) && counts.Length == nc + 1
    ensures forall i :: 1 <= i <= nc ==> counts[i] == |Landed(recv, base, first + i - 1)|
  {
    NothingLanded(base);
    hide Landed;
    counts := new nat[nc + 1](_ => 0);
    var k := 0;
    assert recv[..0] == [];
    while k < |recv|
      invariant 0 <= k <= |recv|
      invariant forall i :: 1 <= i <= nc ==> counts[i] == |Landed(recv[..k], base, first + i - 1)|
    {
      var e := recv[k];
      assert recv[..k + 1] == recv[..k] + [e];
      ghost var before := counts[..];
      counts[e.col - first + 1] := counts[e.col - first + 1] + 1;
      forall i | 1 <= i <= nc
        ensures counts[i] == |Landed(recv[..k + 1], base, first + i - 1)|
      {
        LandedOne(recv[..k], e, base, first + i - 1);
        assert before[i] == |Landed(recv[..k], base, first + i - 1)|;
      }
      k := k + 1;
    }
    assert recv[..k] == recv;
  }

  lemma NothingLanded(base: nat)
    ensures forall c :: Landed([], base, c) == []
  {
  }

  /** Column c has `content` at the start of its slot and `next` is the position after it. */
  ghost predicate SlotStarts(rows: seq<nat>, ptr: seq<nat>, base: nat, c: nat, next: nat, content: seq<nat>) {
    && c + 1 < |ptr| && base <= ptr[c] && next == ptr[c] + |content| && next <= ptr[c + 1] <= base + |rows|
    && rows[ptr[c] - base..next - base] == content
  }

  ghost predicate LandState(rows: seq<nat>, ptr: seq<nat>, next: seq<nat>, first: nat, nc: nat, recv: seq<Entry>,
                            base: nat) {
    && |ptr| == nc + 1 && nc <= |next|
    && forall c :: 0 <= c < nc ==> SlotStarts(rows, ptr, base, c, next[c], Landed(recv, base, first + c))
  }

  ghost predicate LandFits(ptr: seq<nat>, first: nat, recv: seq<Entry>, base: nat, c: nat) {
    c + 1 < |ptr| && ptr[c + 1] == ptr[c] + |Landed(recv, base, first + c)|
  }

  lemma StartGrows(rows: seq<nat>, ptr: seq<nat>, base: nat, c: nat, next: nat, content: seq<nat>, x: nat)
    requires SlotStarts(rows, ptr, base, c, next, content) && next < ptr[c + 1]
    ensures base <= next < base + |rows|
    ensures SlotStarts(rows[next - base := x], ptr, base, c, next + 1, content + [x])
  {
  }

  lemma StartKept(rows: seq<nat>, ptr: seq<nat>, base: nat, c: nat, next: nat, content: seq<nat>, pos: nat, x: nat)
    requires SlotStarts(rows, ptr, base, c, next, content) && pos < |rows|
    requires base + pos < ptr[c] || ptr[c + 1] <= base + pos
    ensures SlotStarts(rows[pos := x], ptr, base, c, next, content)
  {
  }

  lemma LandStep(rows: seq<nat>, ptr: seq<nat>, next: seq<nat>, first: nat, nc: nat, recv: seq<Entry>, base: nat,
                 e: Entry)
    requires LandState(rows, ptr, next, first, nc, recv, base)
    requires (forall i, j :: 0 <= i <= j < |ptr| ==> ptr[i] <= ptr[j])
    requires first <= e.col < first + nc
    requires var c := e.col - first; ptr[c] + |Landed(recv + [e], base, e.col)| <= ptr[c + 1]
    ensures var c := e.col - first;
      && base <= next[c] < base + |rows|
      && LandState(rows[next[c] - base := e.row + base], ptr, next[c := next[c] + 1], first, nc, recv + [e], base)
  {
    hide SlotStarts, Landed;
    var c := e.col - first;
    var x := e.row + base;
    LandedOne(recv, e, base, e.col);
    assert SlotStarts(rows, ptr, base, c, next[c], Landed(recv, base, first + c));
    SlotNext(rows, ptr, base, c, next[c], Landed(recv, base, first + c));
    StartGrows(rows, ptr, base, c, next[c], Landed(recv, base, first + c), x);
    var next' := next[c := next[c] + 1];
    forall d | 0 <= d < nc
      ensures SlotStarts(rows[next[c] - base := x], ptr, base, d, next'[d], Landed(recv + [e], base, first + d))
    {
      if d != c {
        LandedOne(recv, e, base, first + d);
        assert Landed(recv + [e], base, first + d) == Landed(recv, base, first + d);
        StartKept(rows, ptr, base, d, next[d], Landed(recv, base, first + d), next[c] - base, x);
      }
    }
  }

  lemma SlotNext(rows: seq<nat>, ptr: seq<nat>, base: nat, c: nat, next: nat, content: seq<nat>)
    requires SlotStarts(rows, ptr, base, c, next, content)
    ensures c + 1 < |ptr| && ptr[c] <= next == ptr[c] + |content|
  {
  }

  lemma LandRoom(ptr: seq<nat>, first: nat, nc: nat, recv: seq<Entry>, base: nat, k: nat)
    requires Expansion.ForColumns(recv, first, nc) && k < |recv| && |ptr| == nc + 1
    requires forall c :: 0 <= c < nc ==> LandFits(ptr, first, recv, base, c)
    ensures first <= recv[k].col < first + nc
    ensures var c := recv[k].col - first;
      ptr[c] + |Landed(recv[..k] + [recv[k]], base, recv[k].col)| <= ptr[c + 1]
  {
    assert recv[..k + 1] == recv[..k] + [recv[k]];
    LandedGrows(recv[..k + 1], recv, base, recv[k].col);
    assert LandFits(ptr, first, recv, base, recv[k].col - first);
  }

  method FillForward(rows: array<nat>, ptr: seq<nat>, next: array<nat>, recv: seq<Entry>, first: nat, nc: nat,
                     base: nat)
    requires LandState(rows[..], ptr, next[..], first, nc, [], base) && rows != next
    requires Expansion.ForColumns(recv, first, nc)
    requires forall i, j :: 0 <= i <= j < |ptr| ==> ptr[i] <= ptr[j]
    requires forall c :: 0 <= c < nc ==> LandFits(ptr, first, recv, base, c)
    modifies rows, next
    ensures LandState(rows[..], ptr, next[..], first, nc, recv, base)
  {
    assert |ptr| == nc + 1 && nc <= next.Length;
    hide LandState, Landed, LandFits, SlotStarts, Expansion.ForColumns;
    var k := 0;
    assert recv[..0] == [];
    while k < |recv|
      invariant 0 <= k <= |recv|
      invariant LandState(rows[..], ptr, next[..], first, nc, recv[..k], base)
    {
      var e := recv[k];
      assert recv[..k + 1] == recv[..k] + [e];
      LandRoom(ptr, first, nc, recv, base, k);
      FillOne(rows, ptr, next, e, first, nc, base, recv[..k]);
      k := k + 1;
    }
    assert recv[..k] == recv;
  }

  /** One received entry goes to the next free place of its column. */
  method FillOne(rows: array<nat>, ptr: seq<nat>, next: array<nat>, e: Entry, first: nat, nc: nat, base: nat,
                 ghost recv: seq<Entry>)
    requires LandState(rows[..], ptr, next[..], first, nc, recv, base) && rows != next && nc <= next.Length
    requires forall i, j :: 0 <= i <= j < |ptr| ==> ptr[i] <= ptr[j]
    requires first <= e.col < first + nc && |ptr| == nc + 1
    requires var c := e.col - first; ptr[c] + |Landed(recv + [e], base, e.col)| <= ptr[c + 1]
    modifies rows, next
    ensures LandState(rows[..], ptr, next[..], first, nc, recv + [e], base)
  {
    ghost var r: seq<nat>, m: seq<nat> := rows[..], next[..];
    LandStep(r, ptr, m, first, nc, recv, base, e);
    hide LandState, Landed;
    var locCol := e.col - first;
    var pos := next[locCol];
    next[locCol] := pos + 1;
    rows[pos - base] := e.row + base;
    assert rows[..] == r[pos - base := e.row + base];
    assert next[..] == m[locCol := m[locCol] + 1];
  }

  /** The storage holds exactly what was received. */
  ghost predicate IsLanded(recv: seq<Entry>, base: nat, first: nat, nc: nat, s: Csc) {
    && s.Valid() && s.base == base && |s.colptr| == nc + 1
    && forall l :: 0 <= l < nc ==> s.Columns()[l] == Landed(recv, base, first + l)
  }

  lemma LandPointers(recv: seq<Entry>, base: nat, first: nat, nc: nat, ptr: seq<nat>)
    requires |ptr| == nc + 1
    requires forall c :: 0 <= c <= nc ==> ptr[c] == base + Prefix(LandedWidths(recv, base, first, nc), c)
    ensures ptr[0] == base && forall i, j :: 0 <= i <= j <= nc ==> ptr[i] <= ptr[j]
    ensures forall c :: 0 <= c < nc ==> LandFits(ptr, first, recv, base, c)
  {
    hide Landed, Prefix;
    var w := LandedWidths(recv, base, first, nc);
    Expansion.PrefixStarts(w);
    forall i, j | 0 <= i <= j <= nc
      ensures ptr[i] <= ptr[j]
    {
      PrefixMonotone(w, i, j);
    }
    forall c | 0 <= c < nc
      ensures LandFits(ptr, first, recv, base, c)
    {
      Expansion.PrefixNext(w, c);
    }
  }

  lemma LandBegins(recv: seq<Entry>, base: nat, first: nat, nc: nat, ptr: seq<nat>, rows: seq<nat>)
    requires |ptr| == nc + 1 && ptr[0] == base && ptr[nc] == base + |rows|
    requires forall i, j :: 0 <= i <= j <= nc ==> ptr[i] <= ptr[j]
    ensures LandState(rows, ptr, ptr, first, nc, [], base)
  {
    NothingLanded(base);
  }

  lemma LandEnds(recv: seq<Entry>, base: nat, first: nat, nc: nat, ptr: seq<nat>, next: seq<nat>, rows: seq<nat>)
    requires |ptr| == nc + 1 && ptr[0] == base && ptr[nc] == base + |rows|
    requires forall i, j :: 0 <= i <= j <= nc ==> ptr[i] <= ptr[j]
    requires forall c :: 0 <= c < nc ==> LandFits(ptr, first, recv, base, c)
    requires LandState(rows, ptr, next, first, nc, recv, base)
    ensures IsLanded(recv, base, first, nc, Csc(base, ptr, rows))
  {
    hide Landed;
    var s := Csc(base, ptr, rows);
    forall l | 0 <= l < nc
      ensures s.Column(l) == Landed(recv, base, first + l)
    {
      assert LandFits(ptr, first, recv, base, l);
      assert SlotStarts(rows, ptr, base, l, next[l], Landed(recv, base, first + l));
    }
  }

  method LandLocal(recv: seq<Entry>, base: nat, first: nat, nc: nat) returns (s: Csc)
    requires Expansion.ForColumns(recv, first, nc)
    ensures IsLanded(recv, base, first, nc, s)
  {
    hide LandState, Landed, IsLanded, LandedWidths, Prefix;
    var newColptr := CountLanded(recv, base, first, nc);
    var ptr := newColptr[..];
    LandPointers(recv, base, first, nc, ptr);
    var rows := new nat[ptr[nc] - base];
    LandBegins(recv, base, first, nc, ptr, rows[..]);
    FillForward(rows, ptr, newColptr, recv, first, nc, base);
    LandEnds(recv, base, first, nc, ptr, newColptr[..], rows[..]);
    s := Csc(base, ptr, rows[..]);
  }

  // ------------------------------------------------------------------------------------------
  // All ranks together.
  // ------------------------------------------------------------------------------------------

  lemma {:induction false} LandedForRank(all: seq<Entry>, vertexDist: seq<nat>, base: nat, p: nat, c: nat)
    requires |vertexDist| >= 1 && Destination(vertexDist, base, c) == p
    ensures Landed(ForRank(all, vertexDist, base, p), base, c) == Landed(all, base, c)
    decreases |all|
  {
    if all != [] {
      hide Destination, Landed, ForRank;
      var e, front := all[|all| - 1], all[..|all| - 1];
      assert all == front + [e];
      LandedForRank(front, vertexDist, base, p, c);
      ForRankOne(front, e, vertexDist, base, p);
      LandedOne(front, e, base, c);
      if Destination(vertexDist, base, e.col) == p {
        LandedOne(ForRank(front, vertexDist, base, p), e, base, c);
      } else {
        assert e.col != c && ForRank(all, vertexDist, base, p) == ForRank(front, vertexDist, base, p);
      }
    }
  }

  /** Each rank of the new distribution stores what it received under the rule. */
  ghost predicate RanksLanded(rule: Rule, d: Dist, d': Dist)
    requires d.Valid()
  {
    && d'.Valid() && d'.base == d.base && |d'.ranks| == |d.ranks| && d'.Size() == d.Size()
    && forall p :: 0 <= p < |d.ranks| ==> RankLanded(rule, d, d', p)
  }

  ghost predicate RankLanded(rule: Rule, d: Dist, d': Dist, p: nat)
    requires d.Valid() && d'.Valid() && p < |d.ranks| == |d'.ranks|
  {
    IsLanded(Received(SentByRanks(rule, d), d'.vertexDist, d.base, p, |d.ranks|),
             d.base, FirstColumn(d', p), d'.vertexDist[p + 1] - d'.vertexDist[p], d'.ranks[p])
  }

  /** Column c of the permuted graph: everything sent for it, in the order of the old columns. */
  ghost function LandedColumn(rule: Rule, cols: Columns, base: nat, c: nat): seq<nat> {
    Landed(Sent(rule, base, 0, cols, |cols|), base, c)
  }

  ghost function LandedColumns(rule: Rule, cols: Columns, base: nat): (r: Columns)
    ensures |r| == |cols| && forall c :: 0 <= c < |cols| ==> r[c] == LandedColumn(rule, cols, base, c)
  {
    seq(|cols|, c requires 0 <= c < |cols| => LandedColumn(rule, cols, base, c))
  }

  lemma ReceivedLands(rule: Rule, d: Dist, d': Dist, p: nat, c: nat)
    requires d.Valid() && d'.Valid() && d'.base == d.base && p < |d.ranks| == |d'.ranks|
    requires d'.vertexDist[p] <= c + d.base < d'.vertexDist[p + 1]
    ensures Landed(Received(SentByRanks(rule, d), d'.vertexDist, d.base, p, |d.ranks|), d.base, c)
         == LandedColumn(rule, d.Gathered(), d.base, c)
  {
    hide Sent, Landed, Received, ForRank, SentByRanks, Concatenated;
    var all := Sent(rule, d.base, 0, d.Gathered(), |d.Gathered()|);
    ConcatenatedIsGathered(rule, d, |d.ranks|);
    ReceivedIsPart(SentByRanks(rule, d), d'.vertexDist, d.base, p, |d.ranks|);
    OwnerIs(d'.vertexDist, d.base, |d.ranks|, c + d.base, 0, p);
    LandedForRank(all, d'.vertexDist, d.base, p, c);
  }

  lemma LandedRankColumn(rule: Rule, d: Dist, d': Dist, p: nat, l: nat)
    requires d.Valid() && RanksLanded(rule, d, d') && p < |d'.ranks| && d'.RankValid(p) && l < |d'.ranks[p].colptr| - 1
    ensures d'.ranks[p].Columns()[l] == LandedColumn(rule, d.Gathered(), d.base, FirstColumn(d', p) + l)
  {
    hide LandedColumn, Landed, Received, SentByRanks;
    assert RankLanded(rule, d, d', p);
    ReceivedLands(rule, d, d', p, FirstColumn(d', p) + l);
  }

  /** The gathered result does not depend on how the columns were or are split. */
  lemma GatheredLanding(rule: Rule, d: Dist, d': Dist)
    requires d.Valid() && RanksLanded(rule, d, d')
    ensures d'.Gathered() == LandedColumns(rule, d.Gathered(), d.base)
  {
    assert d'.Valid() && |d'.ranks| == |d.ranks| && d'.base == d.base && d'.Size() == d.Size();
    hide RanksLanded, LandedColumn;
    var G' := d'.Gathered();
    forall c | 0 <= c < |G'|
      ensures G'[c] == LandedColumn(rule, d.Gathered(), d.base, c)
    {
      var v := c + d.base;
      OwnerExists(d'.vertexDist, d.base, |d'.ranks|, v, 0);
      var p := Owner(d'.vertexDist, v, 0);
      var l := v - d'.vertexDist[p];
      assert d'.RankValid(p);
      LandedRankColumn(rule, d, d', p, l);
      d'.GatheredColumn(p, l);
    }
  }
}
