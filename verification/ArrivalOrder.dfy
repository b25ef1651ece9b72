/** In which order rows arrive: that of the old columns, and of storage inside each of them. */
module ArrivalOrder {
  import opened SparseGraphs
  import opened Exchange
  import opened Expansion
  import opened DistExpansion
  import opened Permuting
  import opened PermutingExact
  import opened RoundTrips

  /** A place in an old column. */
  datatype Origin = Origin(col: nat, place: nat)

  predicate Before(a: Origin, b: Origin) { a.col < b.col || (a.col == b.col && a.place < b.place) }

  ghost predicate InOrder(origins: seq<Origin>) {
    forall i, j :: 0 <= i < j < |origins| ==> Before(origins[i], origins[j])
  }

  /** The message was made from the stored entry there. */
  ghost predicate MadeFrom(rule: Rule, base: nat, cols: Columns, o: Origin, e: Entry) {
    && o.col < |cols| && o.place < |cols[o.col]| && cols[o.col][o.place] >= base
    && rule(o.col, cols[o.col][o.place] - base) == Some(e)
  }

  /** Messages, one by one, with where they come from. */
  ghost predicate MadeInOrder(rule: Rule, base: nat, cols: Columns, origins: seq<Origin>, out: seq<Entry>) {
    && |origins| == |out| && InOrder(origins)
    && forall i :: 0 <= i < |out| ==> MadeFrom(rule, base, cols, origins[i], out[i])
  }

  /** All of them lie before the next place to be looked at. */
  ghost predicate AllBefore(origins: seq<Origin>, next: Origin) {
    forall o :: o in origins ==> Before(o, next)
  }

  lemma OneMore(rule: Rule, base: nat, cols: Columns, origins: seq<Origin>, out: seq<Entry>, o: Origin, e: Entry)
    requires MadeInOrder(rule, base, cols, origins, out) && AllBefore(origins, o) && MadeFrom(rule, base, cols, o, e)
    ensures MadeInOrder(rule, base, cols, origins + [o], out + [e])
    ensures AllBefore(origins + [o], Origin(o.col, o.place + 1))
  {
    hide MadeFrom;
    forall i, j | 0 <= i < j < |origins| + 1 ensures Before((origins + [o])[i], (origins + [o])[j]) {
      assert j == |origins| ==> origins[i] in origins;
    }
  }

  lemma NextPlace(origins: seq<Origin>, a: Origin, b: Origin)
    requires AllBefore(origins, a) && (a == b || Before(a, b))
    ensures AllBefore(origins, b)
  {
  }

  /** The messages of the columns before k and of the first n places of column k. */
  lemma {:induction false} SentInOrder(rule: Rule, base: nat, cols: Columns, k: nat, n: nat)
    returns (origins: seq<Origin>)
    requires RowsInside(cols, base) && k < |cols| && n <= |cols[k]|
    ensures MadeInOrder(rule, base, cols, origins, Sent(rule, base, 0, cols, k) + SentFor(rule, base, k, cols[k][..n]))
    ensures AllBefore(origins, Origin(k, n))
    decreases k, n
  {
    var before := Sent(rule, base, 0, cols, k);
    if n == 0 {
      assert before + SentFor(rule, base, k, cols[k][..0]) == before;
      if k == 0 {
        origins := [];
      } else {
        origins := SentInOrder(rule, base, cols, k - 1, |cols[k - 1]|);
        assert cols[k - 1][..|cols[k - 1]|] == cols[k - 1];
        NextPlace(origins, Origin(k - 1, |cols[k - 1]|), Origin(k, 0));
      }
    } else {
      origins := SentInOrder(rule, base, cols, k, n - 1);
      var row := cols[k][n - 1];
      assert cols[k][..n] == cols[k][..n - 1] + [row] && base <= row;
      SentForFront(rule, base, k, cols[k][..n - 1], row);
      var out := before + SentFor(rule, base, k, cols[k][..n - 1]);
      hide MadeInOrder, AllBefore, SentFor, Sent;
      match rule(k, row - base) {
        case None =>
          assert before + SentFor(rule, base, k, cols[k][..n]) == out;
          NextPlace(origins, Origin(k, n - 1), Origin(k, n));
        case Some(e) =>
          assert before + SentFor(rule, base, k, cols[k][..n]) == out + [e];
          OneMore(rule, base, cols, origins, out, Origin(k, n - 1), e);
          origins := origins + [Origin(k, n - 1)];
      }
    }
  }

  lemma AllSentInOrder(rule: Rule, base: nat, cols: Columns) returns (origins: seq<Origin>)
    requires RowsInside(cols, base)
    ensures MadeInOrder(rule, base, cols, origins, Sent(rule, base, 0, cols, |cols|))
  {
    if cols == [] {
      origins := [];
    } else {
      var k := |cols| - 1;
      origins := SentInOrder(rule, base, cols, k, |cols[k]|);
      assert cols[k][..|cols[k]|] == cols[k];
    }
  }

  /** The rows of a new column with where they come from. */
  ghost predicate RowsInOrder(rule: Rule, base: nat, cols: Columns, c: nat, origins: seq<Origin>, rows: seq<nat>) {
    && |origins| == |rows| && InOrder(origins)
    && forall i :: 0 <= i < |rows| ==>
      rows[i] >= base && MadeFrom(rule, base, cols, origins[i], Entry(c, rows[i] - base))
  }

  lemma OneMoreRow(rule: Rule, base: nat, cols: Columns, c: nat, origins: seq<Origin>, rows: seq<nat>, o: Origin,
                   e: Entry)
    requires RowsInOrder(rule, base, cols, c, origins, rows) && AllBefore(origins, o)
    requires MadeFrom(rule, base, cols, o, e) && e.col == c
    ensures RowsInOrder(rule, base, cols, c, origins + [o], rows + [e.row + base])
  {
    hide MadeFrom;
    assert e == Entry(c, e.row + base - base);
    forall i, j | 0 <= i < j < |origins| + 1 ensures Before((origins + [o])[i], (origins + [o])[j]) {
      assert j == |origins| ==> origins[i] in origins;
    }
  }

  lemma WithoutLast(rule: Rule, base: nat, cols: Columns, all: seq<Origin>, out: seq<Entry>, n: nat)
    requires MadeInOrder(rule, base, cols, all, out) && |out| == n + 1
    ensures MadeInOrder(rule, base, cols, all[..n], out[..n])
    ensures AllBefore(all[..n], all[n]) && MadeFrom(rule, base, cols, all[n], out[n])
  {
    hide MadeFrom;
  }

  lemma {:induction false} LandedInOrder(rule: Rule, base: nat, cols: Columns, c: nat, all: seq<Origin>,
                                         out: seq<Entry>) returns (origins: seq<Origin>)
    requires MadeInOrder(rule, base, cols, all, out)
    ensures RowsInOrder(rule, base, cols, c, origins, Landed(out, base, c))
    ensures forall o :: o in origins ==> o in all
    decreases |out|
  {
    if out == [] {
      origins := [];
    } else {
      var n := |out| - 1;
      WithoutLast(rule, base, cols, all, out, n);
      hide MadeInOrder, RowsInOrder, MadeFrom;
      origins := LandedInOrder(rule, base, cols, c, all[..n], out[..n]);
      assert out == out[..n] + [out[n]] && forall o :: o in all[..n] ==> o in all;
      LandedOne(out[..n], out[n], base, c);
      if out[n].col == c {
        OneMoreRow(rule, base, cols, c, origins, Landed(out[..n], base, c), all[n], out[n]);
        origins := origins + [all[n]];
      } else {
        assert Landed(out[..n], base, c) + [] == Landed(out[..n], base, c);
      }
    }
  }

  // ---- permute_ ----

  /** The row was stored at the origin, in this column or, transposed, in that of its own label. */
  ghost predicate CameFrom(lab: seq<nat>, base: nat, cols: Columns, c: nat, o: Origin, row: nat)
    requires |lab| == |cols|
  {
    && o.col < |cols| && o.place < |cols[o.col]| && base <= cols[o.col][o.place] < base + |cols|
    && var u, v := lab[o.col], lab[cols[o.col][o.place] - base];
      ((u == c && base + v == row) || (v == c && base + u == row))
  }

  lemma RuleRelabels(lab: seq<nat>, keepDiag: bool, expanded: bool, base: nat, cols: Columns, c: nat, o: Origin,
                     row: nat)
    requires |lab| == |cols| && RowsInside(cols, base) && row >= base
    requires MadeFrom(PermuteRule(lab, keepDiag, expanded), base, cols, o, Entry(c, row - base))
    ensures CameFrom(lab, base, cols, c, o, row)
  {
  }

  lemma RowsRelabelled(lab: seq<nat>, keepDiag: bool, expanded: bool, base: nat, cols: Columns, c: nat,
                       origins: seq<Origin>, rows: seq<nat>)
    requires |lab| == |cols| && RowsInside(cols, base)
    requires RowsInOrder(PermuteRule(lab, keepDiag, expanded), base, cols, c, origins, rows)
    ensures |origins| == |rows| && InOrder(origins)
    ensures forall i :: 0 <= i < |rows| ==> CameFrom(lab, base, cols, c, origins[i], rows[i])
  {
    hide MadeFrom, CameFrom, RowsInside, PermuteRule, InOrder;
    forall i | 0 <= i < |rows| ensures CameFrom(lab, base, cols, c, origins[i], rows[i]) {
      RuleRelabels(lab, keepDiag, expanded, base, cols, c, origins[i], rows[i]);
    }
  }

  /** On a graph that is not marked as sorted, permute_ leaves the rows of every column in the order in which
      their entries were stored: by old columns, and inside each in the old order. */
  lemma PermutedInOrder(lab: seq<nat>, keepDiag: bool, expanded: bool, base: nat, cols: Columns, c: nat)
    requires IsLabelling(lab) && |lab| == |cols| && RowsInside(cols, base) && c < |cols|
    ensures var rows := PermutedTo(lab, keepDiag, expanded, false, base, cols)[c];
      exists origins: seq<Origin> ::
        && |origins| == |rows| && InOrder(origins)
        && forall i :: 0 <= i < |rows| ==> CameFrom(lab, base, cols, c, origins[i], rows[i])
  {
    var rule, rows := PermuteRule(lab, keepDiag, expanded), PermutedTo(lab, keepDiag, expanded, false, base, cols)[c];
    var sent := Sent(rule, base, 0, cols, |cols|);
    assert rows == Landed(sent, base, c);
    hide *;
    var all := AllSentInOrder(rule, base, cols);
    var origins := LandedInOrder(rule, base, cols, c, all, sent);
    RowsRelabelled(lab, keepDiag, expanded, base, cols, c, origins, rows);
  }

  // ---- ExpandSymmetric ----

  ghost predicate Reversed(a: seq<nat>, b: seq<nat>) {
    |a| == |b| && forall i :: 0 <= i < |a| ==> a[i] == b[|a| - 1 - i]
  }

  lemma ReversedOne(a: seq<nat>, b: seq<nat>, x: nat)
    requires Reversed(a, b)
    ensures Reversed([x] + a, b + [x])
  {
  }

  lemma {:induction false} FillReverses(recv: seq<Entry>, base: nat, c: nat)
    ensures Reversed(Fill(recv, base, c), Landed(recv, base, c))
    decreases |recv|
  {
    if recv != [] {
      hide Fill, Landed, Reversed;
      var front, e := recv[..|recv| - 1], recv[|recv| - 1];
      FillReverses(front, base, c);
      assert recv == front + [e];
      Expansion.FillOne(front, e, base, c);
      LandedOne(front, e, base, c);
      if e.col == c {
        ReversedOne(Fill(front, base, c), Landed(front, base, c), e.row + base);
      } else {
        assert [] + Fill(front, base, c) == Fill(front, base, c);
        assert Landed(front, base, c) + [] == Landed(front, base, c);
      }
    }
  }

  /** A row that expansion puts into column c is a column left of it that stores c. */
  ghost predicate Mirrors(base: nat, cols: Columns, c: nat, row: nat) {
    base <= row < base + c && row - base < |cols| && base + c in cols[row - base]
  }

  lemma ExpandedFrom(base: nat, cols: Columns, c: nat, o: Origin, row: nat)
    requires row >= base && MadeFrom(ExpandRule(), base, cols, o, Entry(c, row - base))
    ensures o.col == row - base && Mirrors(base, cols, c, row)
  {
    assert cols[o.col][o.place] in cols[o.col];
  }

  ghost predicate AsMirrored(base: nat, cols: Columns, c: nat, news: seq<nat>) {
    && (forall i, j :: 0 <= i < j < |news| ==> news[i] >= news[j])
    && forall i :: 0 <= i < |news| ==> Mirrors(base, cols, c, news[i])
  }

  /** The rows that arrive, last one first. */
  lemma MirroredRows(base: nat, cols: Columns, c: nat, origins: seq<Origin>, landed: seq<nat>, news: seq<nat>)
    requires RowsInOrder(ExpandRule(), base, cols, c, origins, landed) && Reversed(news, landed)
    ensures AsMirrored(base, cols, c, news)
  {
    forall k | 0 <= k < |landed| ensures origins[k].col == landed[k] - base && Mirrors(base, cols, c, landed[k]) {
      ExpandedFrom(base, cols, c, origins[k], landed[k]);
    }
    hide MadeFrom, Mirrors;
    forall i, j | 0 <= i < j < |news| ensures news[i] >= news[j] {
      assert Before(origins[|news| - 1 - j], origins[|news| - 1 - i]);
    }
  }

  lemma NewRowsMirrored(base: nat, cols: Columns, c: nat) returns (news: seq<nat>)
    requires RowsInside(cols, base)
    ensures news == Fill(Sent(ExpandRule(), base, 0, cols, |cols|), base, c) && AsMirrored(base, cols, c, news)
  {
    hide *;
    var sent := Sent(ExpandRule(), base, 0, cols, |cols|);
    news := Fill(sent, base, c);
    var all := AllSentInOrder(ExpandRule(), base, cols);
    var origins := LandedInOrder(ExpandRule(), base, cols, c, all, sent);
    FillReverses(sent, base, c);
    MirroredRows(base, cols, c, origins, Landed(sent, base, c), news);
  }

  /** Expanding puts new rows in front of a column's own ones: the columns left of it that store it, the last
      one first. */
  lemma ExpandedInOrder(base: nat, cols: Columns, c: nat)
    requires RowsInside(cols, base) && c < |cols|
    ensures exists news ::
      && ExpandedColumn(cols, base, c) == news + cols[c]
      && (forall i, j :: 0 <= i < j < |news| ==> news[i] >= news[j])
      && (forall i :: 0 <= i < |news| ==> base <= news[i] < base + c && base + c in cols[news[i] - base])
  {
    hide Fill, Sent, RowsInside;
    var news := NewRowsMirrored(base, cols, c);
    assert ExpandedColumn(cols, base, c) == news + cols[c];
    forall i | 0 <= i < |news| ensures base <= news[i] < base + c && base + c in cols[news[i] - base] {
      assert Mirrors(base, cols, c, news[i]);
    }
  }
}
