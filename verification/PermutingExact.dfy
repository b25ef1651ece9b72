/** Which entries a permuted graph stores, how often, and how permutations undo each other. */
module PermutingExact {
  import opened SparseGraphs
  import opened Exchange
  import opened DistExpansion
  import opened Restriction
  import opened ExpansionExact
  import opened Permuting

  /** An entry stored as (c0, r0) is kept in place, under its new labels. */
  ghost predicate Forward(lab: seq<nat>, keepDiag: bool, expanded: bool, c0: nat, r0: nat)
    requires c0 < |lab| && r0 < |lab|
  {
    expanded || lab[r0] > lab[c0] || (lab[r0] == lab[c0] && keepDiag)
  }

  /** An entry stored as (r0, c0) is transposed into place. */
  ghost predicate Transposed(lab: seq<nat>, expanded: bool, c0: nat, r0: nat)
    requires c0 < |lab| && r0 < |lab|
  {
    !expanded && lab[r0] > lab[c0]
  }

  ghost function Hits(lab: seq<nat>, keepDiag: bool, expanded: bool, c0: nat, r0: nat, col: nat, row: nat): nat
    requires c0 < |lab| && r0 < |lab|
  {
    (if col == c0 && row == r0 && Forward(lab, keepDiag, expanded, c0, r0) then 1 else 0) +
    (if col == r0 && row == c0 && Transposed(lab, expanded, c0, r0) then 1 else 0)
  }

  /** What the rule sends for one stored entry lands at (lab[c0], lab[r0]) as often as it hits. */
  lemma RuleHits(lab: seq<nat>, keepDiag: bool, expanded: bool, c0: nat, r0: nat, col: nat, row: nat)
    requires IsLabelling(lab) && c0 < |lab| && r0 < |lab| && col < |lab| && row < |lab|
    ensures Hits(lab, keepDiag, expanded, c0, r0, col, row) ==
      match PermuteRule(lab, keepDiag, expanded)(col, row)
      case None => 0
      case Some(e) => if e.col == lab[c0] && e.row == lab[r0] then 1 else 0
  {
  }

  lemma LandedOneTimes(a: seq<Entry>, e: Entry, base: nat, c: nat, r: nat)
    ensures multiset(Landed(a + [e], base, c))[r + base]
         == multiset(Landed(a, base, c))[r + base] + if e.col == c && e.row == r then 1 else 0
  {
    LandedOne(a, e, base, c);
  }

  lemma LandedPlus(a: seq<Entry>, b: seq<Entry>, base: nat, c: nat, x: nat)
    ensures multiset(Landed(a + b, base, c))[x] == multiset(Landed(a, base, c))[x] + multiset(Landed(b, base, c))[x]
  {
    LandedAppend(a, b, base, c);
  }

  lemma SentForFront(rule: Rule, base: nat, col: nat, front: seq<nat>, row: nat)
    requires row >= base
    ensures SentFor(rule, base, col, front + [row]) ==
            SentFor(rule, base, col, front) + match rule(col, row - base) case None => [] case Some(e) => [e]
  {
    var rows := front + [row];
    assert rows[..|front|] == front && rows[..|front| + 1] == rows;
    SentForOne(rule, base, col, rows, |front|);
  }

  lemma SentForStep(lab: seq<nat>, keepDiag: bool, expanded: bool, base: nat, c0: nat, r0: nat, col: nat,
                    front: seq<nat>, row: nat)
    requires IsLabelling(lab) && c0 < |lab| && r0 < |lab| && col < |lab| && base <= row < base + |lab|
    ensures var rule := PermuteRule(lab, keepDiag, expanded);
      multiset(Landed(SentFor(rule, base, col, front + [row]), base, lab[c0]))[lab[r0] + base]
      == multiset(Landed(SentFor(rule, base, col, front), base, lab[c0]))[lab[r0] + base]
         + Hits(lab, keepDiag, expanded, c0, r0, col, row - base)
  {
    hide Landed, SentFor, Hits, IsLabelling;
    var rule := PermuteRule(lab, keepDiag, expanded);
    SentForFront(rule, base, col, front, row);
    RuleHits(lab, keepDiag, expanded, c0, r0, col, row - base);
    var sent := SentFor(rule, base, col, front);
    match rule(col, row - base) {
      case None => assert sent + [] == sent;
      case Some(e) => LandedOneTimes(sent, e, base, lab[c0], lab[r0]);
    }
  }

  lemma NothingSentFor(rule: Rule, base: nat, col: nat, c: nat)
    ensures Landed(SentFor(rule, base, col, []), base, c) == []
  {
  }

  /** The share of one old column in the new entry (lab[c0], lab[r0]). */
  ghost function Share(lab: seq<nat>, keepDiag: bool, expanded: bool, base: nat, c0: nat, r0: nat, col: nat,
                       rows: seq<nat>): nat
    requires c0 < |lab| && r0 < |lab|
  {
    (if col == c0 && Forward(lab, keepDiag, expanded, c0, r0) then multiset(rows)[r0 + base] else 0) +
    (if col == r0 && Transposed(lab, expanded, c0, r0) then multiset(rows)[c0 + base] else 0)
  }

  lemma {:induction false} SentForShare(lab: seq<nat>, keepDiag: bool, expanded: bool, base: nat, c0: nat, r0: nat,
                                        col: nat, rows: seq<nat>)
    requires IsLabelling(lab) && c0 < |lab| && r0 < |lab| && col < |lab|
    requires forall j :: 0 <= j < |rows| ==> base <= rows[j] < base + |lab|
    ensures var sent := SentFor(PermuteRule(lab, keepDiag, expanded), base, col, rows);
      multiset(Landed(sent, base, lab[c0]))[lab[r0] + base]
         == Share(lab, keepDiag, expanded, base, c0, r0, col, rows)
    decreases |rows|
  {
    hide Landed, SentFor, IsLabelling;
    if rows == [] {
      NothingSentFor(PermuteRule(lab, keepDiag, expanded), base, col, lab[c0]);
    } else {
      var front, row := rows[..|rows| - 1], rows[|rows| - 1];
      assert rows == front + [row];
      SentForShare(lab, keepDiag, expanded, base, c0, r0, col, front);
      SentForStep(lab, keepDiag, expanded, base, c0, r0, col, front, row);
    }
  }

  ghost predicate RowsInside(cols: Columns, base: nat) {
    forall c, j :: 0 <= c < |cols| && 0 <= j < |cols[c]| ==> base <= cols[c][j] < base + |cols|
  }

  lemma {:induction false} SentShare(lab: seq<nat>, keepDiag: bool, expanded: bool, base: nat, cols: Columns, k: nat,
                                     c0: nat, r0: nat)
    requires IsLabelling(lab) && |lab| == |cols| && RowsInside(cols, base)
    requires c0 < |lab| && r0 < |lab| && k <= |cols|
    ensures var sent := Sent(PermuteRule(lab, keepDiag, expanded), base, 0, cols, k);
      multiset(Landed(sent, base, lab[c0]))[lab[r0] + base]
         == (if c0 < k && Forward(lab, keepDiag, expanded, c0, r0) then Times(cols, base, c0, r0) else 0)
          + (if r0 < k && Transposed(lab, expanded, c0, r0) then Times(cols, base, r0, c0) else 0)
    decreases k
  {
    hide Landed, SentFor, IsLabelling;
    var rule := PermuteRule(lab, keepDiag, expanded);
    if k == 0 {
      NothingSent(rule, base, 0, cols);
      NothingLanded(base);
    } else {
      SentShare(lab, keepDiag, expanded, base, cols, k - 1, c0, r0);
      SentForShare(lab, keepDiag, expanded, base, c0, r0, k - 1, cols[k - 1]);
      LandedPlus(Sent(rule, base, 0, cols, k - 1), SentFor(rule, base, k - 1, cols[k - 1]), base, lab[c0],
                 lab[r0] + base);
    }
  }

  /** permute_ is the exact image of the stored entries: entry (lab[c0], lab[r0]) of the result is
      stored once for every stored (c0, r0) and, in lower-triangular storage, for every (r0, c0) that
      has to be transposed. */
  lemma PermutedTimes(lab: seq<nat>, keepDiag: bool, expanded: bool, base: nat, cols: Columns, c0: nat, r0: nat)
    requires IsLabelling(lab) && |lab| == |cols| && RowsInside(cols, base) && c0 < |lab| && r0 < |lab|
    ensures multiset(LandedColumn(PermuteRule(lab, keepDiag, expanded), cols, base, lab[c0]))[lab[r0] + base]
         == (if Forward(lab, keepDiag, expanded, c0, r0) then Times(cols, base, c0, r0) else 0)
          + (if Transposed(lab, expanded, c0, r0) then Times(cols, base, r0, c0) else 0)
  {
    hide Landed, Sent;
    SentShare(lab, keepDiag, expanded, base, cols, |cols|, c0, r0);
  }

  // ------------------------------------------------------------------------------------------
  // Rows stay in range, and lower-triangular storage stays lower-triangular.
  // ------------------------------------------------------------------------------------------

  lemma {:induction false} LandedRowsFrom(recv: seq<Entry>, base: nat, c: nat, j: nat)
    requires j < |Landed(recv, base, c)|
    ensures exists e :: e in recv && e.col == c && Landed(recv, base, c)[j] == e.row + base
    decreases |recv|
  {
    var front := recv[..|recv| - 1];
    var e := recv[|recv| - 1];
    if j < |Landed(front, base, c)| {
      LandedRowsFrom(front, base, c, j);
      var e' :| e' in front && e'.col == c && Landed(front, base, c)[j] == e'.row + base;
      assert e' in recv;
    } else {
      assert e in recv;
    }
  }

  /** Entries inside the graph and, unless expanded, below the diagonal or on it as far as that is kept. */
  ghost predicate EntriesFit(sent: seq<Entry>, n: nat, keepDiag: bool, expanded: bool) {
    forall e :: e in sent ==>
      && e.col < n && e.row < n
      && (expanded || e.col < e.row || (keepDiag && e.col == e.row))
  }

  lemma {:induction false} SentForFits(lab: seq<nat>, keepDiag: bool, expanded: bool, base: nat, col: nat,
                                       rows: seq<nat>)
    requires IsLabelling(lab)
    ensures EntriesFit(SentFor(PermuteRule(lab, keepDiag, expanded), base, col, rows), |lab|, keepDiag, expanded)
    decreases |rows|
  {
    if rows != [] { SentForFits(lab, keepDiag, expanded, base, col, rows[..|rows| - 1]); }
  }

  lemma {:induction false} SentFits(lab: seq<nat>, keepDiag: bool, expanded: bool, base: nat, first: nat, cols: Columns,
                                    k: nat)
    requires IsLabelling(lab) && k <= |cols|
    ensures EntriesFit(Sent(PermuteRule(lab, keepDiag, expanded), base, first, cols, k), |lab|, keepDiag, expanded)
    decreases k
  {
    if k > 0 {
      SentFits(lab, keepDiag, expanded, base, first, cols, k - 1);
      SentForFits(lab, keepDiag, expanded, base, first + k - 1, cols[k - 1]);
    }
  }

  /** What permute_ leaves needs nothing more to be permuted again. */
  lemma PermutedFits(lab: seq<nat>, keepDiag: bool, expanded: bool, base: nat, cols: Columns)
    requires IsLabelling(lab) && |lab| == |cols|
    ensures Permutable(LandedColumns(PermuteRule(lab, keepDiag, expanded), cols, base), base, keepDiag, expanded)
  {
    hide Landed, Sent;
    var rule := PermuteRule(lab, keepDiag, expanded);
    var P := LandedColumns(rule, cols, base);
    SentFits(lab, keepDiag, expanded, base, 0, cols, |cols|);
    forall c, j | 0 <= c < |P| && 0 <= j < |P[c]|
      ensures base <= P[c][j] < base + |P| && (expanded || P[c][j] > base + c || (keepDiag && P[c][j] == base + c))
    {
      LandedRowsFrom(Sent(rule, base, 0, cols, |cols|), base, c, j);
    }
  }

  /** Rows are vertices; unless expanded, the storage is lower-triangular with no diagonal entry that is
      not to be kept. */
  ghost predicate Permutable(cols: Columns, base: nat, keepDiag: bool, expanded: bool) {
    && RowsInside(cols, base)
    && (expanded || (IsLower(cols, base) && DiagonalCounted(cols, base, keepDiag)))
  }
}
