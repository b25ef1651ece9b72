/** Permuting by a permutation and then by its inverse. */
module RoundTrips {
  import opened SparseGraphs
  import opened DistGraphs
  import opened Restriction
  import opened ExpansionExact
  import opened SortedRows
  import opened Sorting
  import opened Permuting
  import opened PermutingExact

  /** The columns permute_ leaves, gathered: as they landed, or sorted when the graph is marked so. */
  ghost function PermutedTo(lab: seq<nat>, keepDiag: bool, expanded: bool, sorted: bool, base: nat,
                            cols: Columns): (P: Columns)
    ensures |P| == |cols|
  {
    var landed := LandedColumns(PermuteRule(lab, keepDiag, expanded), cols, base);
    if sorted then SortedColumns(landed) else landed
  }

  ghost predicate InverseLabels(lab: seq<nat>, inv: seq<nat>) {
    && |lab| == |inv| && IsLabelling(lab) && IsLabelling(inv)
    && forall v :: 0 <= v < |lab| ==> inv[lab[v]] == v
  }

  lemma PermutedEntry(lab: seq<nat>, keepDiag: bool, expanded: bool, sorted: bool, base: nat, cols: Columns, c0: nat,
                      r0: nat)
    requires IsLabelling(lab) && |lab| == |cols| && RowsInside(cols, base) && c0 < |lab| && r0 < |lab|
    ensures Times(PermutedTo(lab, keepDiag, expanded, sorted, base, cols), base, lab[c0], lab[r0])
         == (if Forward(lab, keepDiag, expanded, c0, r0) then Times(cols, base, c0, r0) else 0)
          + (if Transposed(lab, expanded, c0, r0) then Times(cols, base, r0, c0) else 0)
  {
    hide Sorted, LandedColumn;
    PermutedTimes(lab, keepDiag, expanded, base, cols, c0, r0);
    var landed := LandedColumns(PermuteRule(lab, keepDiag, expanded), cols, base);
    SortedIsSorted(landed[lab[c0]]);
  }

  lemma PermutedIsPermutable(lab: seq<nat>, keepDiag: bool, expanded: bool, sorted: bool, base: nat, cols: Columns)
    requires IsLabelling(lab) && |lab| == |cols|
    ensures Permutable(PermutedTo(lab, keepDiag, expanded, sorted, base, cols), base, keepDiag, expanded)
  {
    hide Sorted, LandedColumn;
    PermutedFits(lab, keepDiag, expanded, base, cols);
    var landed := LandedColumns(PermuteRule(lab, keepDiag, expanded), cols, base);
    if sorted {
      forall c | 0 <= c < |landed| ensures multiset(SortedColumns(landed)[c]) == multiset(landed[c]) {
        SortedIsSorted(landed[c]);
      }
      SameRowsPermutable(landed, SortedColumns(landed), base, keepDiag, expanded);
    }
  }

  /** The order of the rows does not matter. */
  lemma SameRowsPermutable(a: Columns, b: Columns, base: nat, keepDiag: bool, expanded: bool)
    requires |a| == |b| && forall c :: 0 <= c < |a| ==> multiset(a[c]) == multiset(b[c])
    requires Permutable(a, base, keepDiag, expanded)
    ensures Permutable(b, base, keepDiag, expanded)
  {
    forall c, x | 0 <= c < |a| && x in b[c]
      ensures x in a[c]
    {
      SameRows(a[c], b[c], x);
    }
    forall c, j | 0 <= c < |b| && 0 <= j < |b[c]|
      ensures base <= b[c][j] < base + |b| && (!expanded ==> b[c][j] >= base + c)
    {
      assert b[c][j] in a[c];
    }
  }

  lemma AbsentRow(s: seq<nat>, x: nat)
    requires forall j :: 0 <= j < |s| ==> s[j] != x
    ensures multiset(s)[x] == 0
  {
    assert x in s <==> multiset(s)[x] > 0;
  }

  /** In lower-triangular storage nothing is stored above the diagonal. */
  lemma NoUpperEntries(cols: Columns, base: nat, c: nat, r: nat)
    requires IsLower(cols, base) && r < c < |cols|
    ensures Times(cols, base, c, r) == 0
  {
    AbsentRow(cols[c], r + base);
  }

  lemma NoDiagonal(cols: Columns, base: nat, c: nat)
    requires DiagonalCounted(cols, base, false) && c < |cols|
    ensures Times(cols, base, c, c) == 0
  {
    AbsentRow(cols[c], base + c);
  }

  /** Every entry is back where it was, as often as it was. */
  lemma BackAndForth(lab: seq<nat>, inv: seq<nat>, keepDiag: bool, expanded: bool, sorted: bool, base: nat,
                     cols: Columns, c: nat, r: nat)
    requires InverseLabels(lab, inv) && |lab| == |cols| && Permutable(cols, base, keepDiag, expanded)
    requires c < |cols| && r < |cols|
    ensures var P := PermutedTo(lab, keepDiag, expanded, sorted, base, cols);
      Times(PermutedTo(inv, keepDiag, expanded, sorted, base, P), base, c, r) == Times(cols, base, c, r)
  {
    hide PermutedTo, Times, IsLabelling;
    var P := PermutedTo(lab, keepDiag, expanded, sorted, base, cols);
    LabelsInRange(lab, c, r);
    assert inv[lab[c]] == c && inv[lab[r]] == r;
    PermutedIsPermutable(lab, keepDiag, expanded, sorted, base, cols);
    PermutedEntry(inv, keepDiag, expanded, sorted, base, P, lab[c], lab[r]);
    PermutedEntry(lab, keepDiag, expanded, sorted, base, cols, c, r);
    PermutedEntry(lab, keepDiag, expanded, sorted, base, cols, r, c);
    if !expanded {
      if r < c { NoUpperEntries(cols, base, c, r); }
      if c < r { NoUpperEntries(cols, base, r, c); }
      if c == r && !keepDiag { NoDiagonal(cols, base, c); }
    }
  }

  lemma LabelsInRange(lab: seq<nat>, c: nat, r: nat)
    requires IsLabelling(lab) && c < |lab| && r < |lab|
    ensures lab[c] < |lab| && lab[r] < |lab| && (lab[c] == lab[r] ==> c == r)
  {
  }

  /** Permuting there and back keeps every column up to the order of its rows exactly when the storage is
      permutable: unless expanded, when no diagonal entry is stored that is not to be kept. */
  lemma RoundTripKeepsRows(lab: seq<nat>, inv: seq<nat>, keepDiag: bool, expanded: bool, sorted: bool, base: nat,
                           cols: Columns)
    requires InverseLabels(lab, inv) && |lab| == |cols| && RowsInside(cols, base)
    ensures var P := PermutedTo(lab, keepDiag, expanded, sorted, base, cols);
      var Q := PermutedTo(inv, keepDiag, expanded, sorted, base, P);
      (forall c :: 0 <= c < |cols| ==> multiset(Q[c]) == multiset(cols[c])) <==>
        Permutable(cols, base, keepDiag, expanded)
  {
    hide PermutedTo, Permutable, RowsInside;
    var P := PermutedTo(lab, keepDiag, expanded, sorted, base, cols);
    var Q := PermutedTo(inv, keepDiag, expanded, sorted, base, P);
    PermutedIsPermutable(inv, keepDiag, expanded, sorted, base, P);
    if forall c :: 0 <= c < |cols| ==> multiset(Q[c]) == multiset(cols[c]) {
      SameRowsPermutable(Q, cols, base, keepDiag, expanded);
    }
    if Permutable(cols, base, keepDiag, expanded) {
      forall c | 0 <= c < |cols| ensures multiset(Q[c]) == multiset(cols[c]) {
        RoundTripColumn(lab, inv, keepDiag, expanded, sorted, base, cols, c);
      }
    }
  }

  lemma RoundTripColumn(lab: seq<nat>, inv: seq<nat>, keepDiag: bool, expanded: bool, sorted: bool, base: nat,
                        cols: Columns, c: nat)
    requires InverseLabels(lab, inv) && |lab| == |cols| && Permutable(cols, base, keepDiag, expanded)
    requires c < |cols|
    ensures var P := PermutedTo(lab, keepDiag, expanded, sorted, base, cols);
      multiset(PermutedTo(inv, keepDiag, expanded, sorted, base, P)[c]) == multiset(cols[c])
  {
    hide PermutedTo;
    var P := PermutedTo(lab, keepDiag, expanded, sorted, base, cols);
    var Q := PermutedTo(inv, keepDiag, expanded, sorted, base, P);
    PermutedIsPermutable(inv, keepDiag, expanded, sorted, base, P);
    forall x: nat
      ensures multiset(Q[c])[x] == multiset(cols[c])[x]
    {
      if base <= x < base + |cols| {
        BackAndForth(lab, inv, keepDiag, expanded, sorted, base, cols, c, x - base);
      } else {
        AbsentRow(Q[c], x);
        AbsentRow(cols[c], x);
      }
    }
    assert multiset(Q[c]) == multiset(cols[c]);
  }

  ghost predicate AllSorted(cols: Columns) { forall c :: 0 <= c < |cols| ==> NonDescending(cols[c]) }

  /** On a graph marked as sorted, permuting by a permutation and then by its inverse restores every column
      exactly when the storage is permutable and really sorted. */
  lemma PermutationRoundTrip(lab: seq<nat>, inv: seq<nat>, keepDiag: bool, expanded: bool, base: nat, cols: Columns)
    requires InverseLabels(lab, inv) && |lab| == |cols| && RowsInside(cols, base)
    ensures var P := PermutedTo(lab, keepDiag, expanded, true, base, cols);
      PermutedTo(inv, keepDiag, expanded, true, base, P) == cols
      <==> Permutable(cols, base, keepDiag, expanded) && AllSorted(cols)
  {
    hide Permutable, InverseLabels, NonDescending, RowsInside;
    var P := PermutedTo(lab, keepDiag, expanded, true, base, cols);
    var Q := PermutedTo(inv, keepDiag, expanded, true, base, P);
    PermutedIsSorted(inv, keepDiag, expanded, base, P);
    RoundTripKeepsRows(lab, inv, keepDiag, expanded, true, base, cols);
    hide PermutedTo;
    if Permutable(cols, base, keepDiag, expanded) && AllSorted(cols) {
      forall c | 0 <= c < |cols| ensures Q[c] == cols[c] {
        SortedIsUnique(Q[c], cols[c]);
      }
    }
  }

  lemma PermutedIsSorted(lab: seq<nat>, keepDiag: bool, expanded: bool, base: nat, cols: Columns)
    ensures AllSorted(PermutedTo(lab, keepDiag, expanded, true, base, cols))
  {
    hide Sorted, LandedColumn, NonDescending;
    var landed := LandedColumns(PermuteRule(lab, keepDiag, expanded), cols, base);
    forall c | 0 <= c < |landed| ensures NonDescending(SortedColumns(landed)[c]) {
      SortedIsSorted(landed[c]);
    }
  }

  /** A distributed graph is determined by its split and its gathered columns, so equal gathered
      columns mean equal arrays on every rank. */
  lemma DistDetermined(d: Dist, e: Dist)
    requires d.Valid() && e.Valid() && d.base == e.base && d.vertexDist == e.vertexDist && |d.ranks| == |e.ranks|
    requires d.Gathered() == e.Gathered()
    ensures d == e
  {
    forall p | 0 <= p < |d.ranks|
      ensures d.ranks[p] == e.ranks[p]
    {
      assert d.RankValid(p) && e.RankValid(p);
      forall l | 0 <= l < |d.ranks[p].colptr| - 1
        ensures d.ranks[p].Columns()[l] == e.ranks[p].Columns()[l]
      {
        d.GatheredColumn(p, l);
        e.GatheredColumn(p, l);
      }
      CscDetermined(d.ranks[p], e.ranks[p]);
    }
  }
}
