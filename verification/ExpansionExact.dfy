/** Which entries expansion stores, and how often. */
module ExpansionExact {
  import opened SparseGraphs
  import opened Exchange
  import opened Expansion
  import opened DistExpansion
  import opened Restriction

  /** How often row r (counted from 0) is stored in column c. */
  function Times(cols: Columns, base: nat, c: nat, r: nat): nat
    requires c < |cols|
  {
    multiset(cols[c])[r + base]
  }

  lemma FillPlus(a: seq<Entry>, b: seq<Entry>, base: nat, c: nat, x: nat)
    ensures multiset(Fill(a + b, base, c))[x] == multiset(Fill(a, base, c))[x] + multiset(Fill(b, base, c))[x]
  {
    FillAppend(a, b, base, c);
  }

  lemma FillOneTimes(a: seq<Entry>, e: Entry, base: nat, c: nat, x: nat)
    ensures multiset(Fill(a + [e], base, c))[x]
         == multiset(Fill(a, base, c))[x] + if e.col == c && e.row + base == x then 1 else 0
  {
    FillOne(a, e, base, c);
  }

  lemma ExpandSentForOne(base: nat, col: nat, front: seq<nat>, row: nat)
    requires row >= base
    ensures SentFor(ExpandRule(), base, col, front + [row]) ==
            SentFor(ExpandRule(), base, col, front) + if row - base > col then [Entry(row - base, col)] else []
  {
    var rows := front + [row];
    assert rows[..|front|] == front && rows[..|front| + 1] == rows;
    SentForOne(ExpandRule(), base, col, rows, |front|);
  }

  /** A column col sends row index col to column c once for every time it stores row c below it. */
  lemma {:induction false} SentForTimes(base: nat, col: nat, rows: seq<nat>, c: nat, r: nat)
    requires forall j :: 0 <= j < |rows| ==> rows[j] >= base
    ensures multiset(Fill(SentFor(ExpandRule(), base, col, rows), base, c))[r + base]
         == if r == col && c > col then multiset(rows)[c + base] else 0
    decreases |rows|
  {
    hide Fill, SentFor;
    if rows == [] {
      NoRowsSendNothing(base, col, c);
    } else {
      var front, row := rows[..|rows| - 1], rows[|rows| - 1];
      assert rows == front + [row];
      SentForTimes(base, col, front, c, r);
      SentForTimesStep(base, col, front, row, c, r);
    }
  }

  lemma NoRowsSendNothing(base: nat, col: nat, c: nat)
    ensures Fill(SentFor(ExpandRule(), base, col, []), base, c) == []
  {
  }

  lemma SentForTimesStep(base: nat, col: nat, front: seq<nat>, row: nat, c: nat, r: nat)
    requires row >= base
    ensures multiset(Fill(SentFor(ExpandRule(), base, col, front + [row]), base, c))[r + base]
         == multiset(Fill(SentFor(ExpandRule(), base, col, front), base, c))[r + base]
            + if r == col && c > col && row == c + base then 1 else 0
  {
    hide Fill, SentFor;
    ExpandSentForOne(base, col, front, row);
    var sent := SentFor(ExpandRule(), base, col, front);
    if row - base > col {
      FillOneTimes(sent, Entry(row - base, col), base, c, r + base);
    } else {
      assert sent + [] == sent;
    }
  }

  ghost predicate RowsFrom(cols: Columns, base: nat) {
    forall c, j :: 0 <= c < |cols| && 0 <= j < |cols[c]| ==> cols[c][j] >= base
  }

  lemma {:induction false} SentTimes(cols: Columns, base: nat, k: nat, c: nat, r: nat)
    requires RowsFrom(cols, base) && k <= |cols|
    ensures multiset(Fill(Sent(ExpandRule(), base, 0, cols, k), base, c))[r + base]
         == if r < k && r < c then Times(cols, base, r, c) else 0
    decreases k
  {
    hide Fill, SentFor;
    if k == 0 {
      NothingSent(ExpandRule(), base, 0, cols);
      EmptyFill(base);
    } else {
      SentTimes(cols, base, k - 1, c, r);
      SentForTimes(base, k - 1, cols[k - 1], c, r);
      FillPlus(Sent(ExpandRule(), base, 0, cols, k - 1), SentFor(ExpandRule(), base, k - 1, cols[k - 1]), base, c,
               r + base);
    }
  }

  /** In-place expansion is exact: from lower-triangular storage, column c of the result stores row r
      as often as (r, c) or, above the diagonal, (c, r) was stored, and nothing else. */
  lemma ExpansionIsExact(cols: Columns, base: nat, c: nat, r: nat)
    requires IsLower(cols, base) && c < |cols| && r < |cols|
    ensures multiset(ExpandedColumn(cols, base, c))[r + base]
         == if r < c then Times(cols, base, r, c) else Times(cols, base, c, r)
  {
    hide Fill, Sent;
    assert RowsFrom(cols, base);
    SentTimes(cols, base, |cols|, c, r);
    assert multiset(cols[c])[r + base] > 0 ==> r + base in cols[c];
  }

  /** So the expanded pattern is symmetric, and duplicate-free when the lower triangle was. */
  lemma ExpansionIsSymmetric(cols: Columns, base: nat, c: nat, r: nat)
    requires IsLower(cols, base) && c < |cols| && r < |cols|
    ensures multiset(ExpandedColumn(cols, base, c))[r + base] == multiset(ExpandedColumn(cols, base, r))[c + base]
  {
    hide ExpandedColumn, Times, IsLower;
    ExpansionIsExact(cols, base, c, r);
    ExpansionIsExact(cols, base, r, c);
  }
}
