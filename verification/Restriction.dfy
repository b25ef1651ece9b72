/** Restricting full storage to the lower triangle, and undoing an expansion. */
module Restriction {
  import opened Sequences
  import opened SparseGraphs
  import opened Exchange
  import opened Expansion
  import opened DistExpansion
  import opened SortedRows
  import opened Sorting

  /** The rows the fill pass pushes: those on or below the diagonal. */
  function Lower(rows: seq<nat>, c: nat): (kept: seq<nat>)
    ensures |kept| <= |rows|
    decreases |rows|
  {
    if rows == [] then [] else
      Lower(rows[..|rows| - 1], c) + if rows[|rows| - 1] >= c then [rows[|rows| - 1]] else []
  }

  /** The number of rows the count pass counts: the diagonal only when it is to be kept. */
  function CountLower(rows: seq<nat>, c: nat, keepDiag: bool): (k: nat)
    decreases |rows|
  {
    if rows == [] then 0 else
      CountLower(rows[..|rows| - 1], c, keepDiag) +
      if rows[|rows| - 1] > c || (keepDiag && rows[|rows| - 1] == c) then 1 else 0
  }

  /** The two passes agree on a column exactly when the diagonal is kept or not stored. */
  lemma {:induction false} PassesAgree(rows: seq<nat>, c: nat, keepDiag: bool)
    ensures CountLower(rows, c, keepDiag) <= |Lower(rows, c)|
    ensures CountLower(rows, c, keepDiag) == |Lower(rows, c)| <==> keepDiag || c !in rows
    decreases |rows|
  {
    if rows != [] {
      PassesAgree(rows[..|rows| - 1], c, keepDiag);
      assert rows == rows[..|rows| - 1] + [rows[|rows| - 1]];
    }
  }

  lemma {:induction false} LowerAppend(a: seq<nat>, b: seq<nat>, c: nat)
    ensures Lower(a + b, c) == Lower(a, c) + Lower(b, c)
    decreases |b|
  {
    if b == [] {
      assert a + b == a;
    } else {
      assert (a + b)[..|a + b| - 1] == a + b[..|b| - 1];
      LowerAppend(a, b[..|b| - 1], c);
    }
  }

  lemma {:induction false} LowerOfLower(rows: seq<nat>, c: nat)
    requires forall j :: 0 <= j < |rows| ==> rows[j] >= c
    ensures Lower(rows, c) == rows
    decreases |rows|
  {
    if rows != [] {
      LowerOfLower(rows[..|rows| - 1], c);
      assert rows == rows[..|rows| - 1] + [rows[|rows| - 1]];
    }
  }

  lemma {:induction false} LowerOfUpper(rows: seq<nat>, c: nat)
    requires forall j :: 0 <= j < |rows| ==> rows[j] < c
    ensures Lower(rows, c) == []
    decreases |rows|
  {
    if rows != [] { LowerOfUpper(rows[..|rows| - 1], c); }
  }

  // ------------------------------------------------------------------------------------------
  // The local operation.
  // ------------------------------------------------------------------------------------------

  /** The rows pushed for the first k local columns, `first` being the (base-numbered) first one. */
  ghost function Pushed(cols: Columns, first: nat, k: nat): seq<nat>
    requires k <= |cols|
  {
    if k == 0 then [] else Pushed(cols, first, k - 1) + Lower(cols[k - 1], first + k - 1)
  }

  ghost function Counts(cols: Columns, first: nat, keepDiag: bool): (w: seq<nat>)
    ensures |w| == |cols|
    ensures forall l :: 0 <= l < |cols| ==> w[l] == CountLower(cols[l], first + l, keepDiag)
  {
    seq(|cols|, l requires 0 <= l < |cols| => CountLower(cols[l], first + l, keepDiag))
  }

  /** What the operation makes of one rank's storage. */
  ghost predicate IsRestricted(s: Csc, first: nat, keepDiag: bool, t: Csc)
    requires s.Valid()
  {
    && t.base == s.base && |t.colptr| == |s.colptr|
    && (forall l :: 0 <= l < |t.colptr| ==> t.colptr[l] == s.base + Prefix(Counts(s.Columns(), first, keepDiag), l))
    && t.rowind == Pushed(s.Columns(), first, |s.colptr| - 1)
  }

  method CountRestricted(s: Csc, first: nat, keepDiag: bool) returns (nnzcnt: array<nat>)
    requires s.Valid()
    ensures fresh(nnzcnt) && nnzcnt.Length == |s.colptr|
    ensures forall l :: 0 <= l < |s.colptr| - 1 ==> nnzcnt[l + 1] == CountLower(s.Column(l), first + l, keepDiag)
  {
    nnzcnt := new nat[|s.colptr|];
    nnzcnt[0] := 0;
    var locCol := 0;
    while locCol < |s.colptr| - 1
      invariant 0 <= locCol <= |s.colptr| - 1
      invariant forall l :: 0 <= l < locCol ==> nnzcnt[l + 1] == CountLower(s.Column(l), first + l, keepDiag)
    {
      var count := CountColumn(s, locCol, first + locCol, keepDiag);
      nnzcnt[locCol + 1] := count;
      locCol := locCol + 1;
    }
  }

  lemma CountNext(rows: seq<nat>, k: nat, c: nat, keepDiag: bool)
    requires k < |rows|
    ensures CountLower(rows[..k + 1], c, keepDiag)
      == CountLower(rows[..k], c, keepDiag) + if rows[k] > c || (keepDiag && rows[k] == c) then 1 else 0
  {
    var next := rows[..k + 1];
    assert next[..|next| - 1] == rows[..k] && next[|next| - 1] == rows[k];
  }

  /** Counts what stays of one column. */
  method CountColumn(s: Csc, locCol: nat, col: nat, keepDiag: bool) returns (count: nat)
    requires s.Valid() && locCol < |s.colptr| - 1
    ensures count == CountLower(s.Column(locCol), col, keepDiag)
  {
    hide CountLower;
    ghost var rows := s.Column(locCol);
    var rptr, colend := s.colptr[locCol] - s.base, s.colptr[locCol + 1] - s.base;
    ghost var colbeg := rptr;
    count := 0;
    NothingCounted(col, keepDiag);
    assert rows[..0] == [];
    while rptr < colend
      invariant colbeg <= rptr <= colend && colend - colbeg == |rows|
      invariant count == CountLower(rows[..rptr - colbeg], col, keepDiag)
      decreases colend - rptr
    {
      var row := s.rowind[rptr];
      CountNext(rows, rptr - colbeg, col, keepDiag);
      if row > col || (keepDiag && row == col) {
        count := count + 1;
      }
      rptr := rptr + 1;
    }
    assert rows[..|rows|] == rows;
  }

  lemma NothingCounted(c: nat, keepDiag: bool)
    ensures CountLower([], c, keepDiag) == 0 && Lower([], c) == []
  {
  }

  method PushRestricted(s: Csc, first: nat, keepDiag: bool) returns (newRowind: seq<nat>)
    requires s.Valid()
    ensures newRowind == Pushed(s.Columns(), first, |s.colptr| - 1)
  {
    hide Csc.Valid, Csc.Column, Lower;
    newRowind := [];
    var locCol := 0;
    while locCol < |s.colptr| - 1
      invariant 0 <= locCol <= |s.colptr| - 1
      invariant newRowind == Pushed(s.Columns(), first, locCol)
    {
      newRowind := PushColumn(s, locCol, first + locCol, keepDiag, newRowind);
      locCol := locCol + 1;
    }
  }

  lemma LowerNext(rows: seq<nat>, k: nat, c: nat)
    requires k < |rows|
    ensures Lower(rows[..k + 1], c) == Lower(rows[..k], c) + if rows[k] >= c then [rows[k]] else []
  {
    var next := rows[..k + 1];
    assert next[..|next| - 1] == rows[..k] && next[|next| - 1] == rows[k];
  }

  /** Pushes what stays of one column. */
  method PushColumn(s: Csc, locCol: nat, col: nat, keepDiag: bool, pushed: seq<nat>) returns (newRowind: seq<nat>)
    requires s.Valid() && locCol < |s.colptr| - 1
    ensures newRowind == pushed + Lower(s.Columns()[locCol], col)
  {
    hide Lower;
    ghost var rows := s.Column(locCol);
    newRowind := pushed;
    NothingCounted(col, keepDiag);
    var rptr, colend := s.colptr[locCol] - s.base, s.colptr[locCol + 1] - s.base;
    ghost var colbeg := rptr;
    assert rows[..0] == [];
    while rptr < colend
      invariant colbeg <= rptr <= colend && colend - colbeg == |rows|
      invariant newRowind == pushed + Lower(rows[..rptr - colbeg], col)
      decreases colend - rptr
    {
      var row := s.rowind[rptr];
      LowerNext(rows, rptr - colbeg, col);
      if row >= col || (keepDiag && row == col) {
        newRowind := newRowind + [row];
      }
      rptr := rptr + 1;
    }
    assert rows[..|rows|] == rows;
  }

  /** Counts, sums up and pushes; `first` is the vertex number of the first local column. */
  method RestrictLocal(s: Csc, first: nat, keepDiag: bool) returns (t: Csc)
    requires s.Valid()
    ensures IsRestricted(s, first, keepDiag, t)
  {
    hide Pushed, CountLower, Prefix;
    var nnzcnt := CountRestricted(s, first, keepDiag);
    nnzcnt[0] := s.base;
    SumUp(nnzcnt, Counts(s.Columns(), first, keepDiag), s.base);
    var newRowind := PushRestricted(s, first, keepDiag);
    t := Csc(s.base, nnzcnt[..], newRowind);
  }

  // ------------------------------------------------------------------------------------------
  // When the pointers fit the rows.
  // ------------------------------------------------------------------------------------------

  ghost predicate DiagonalCounted(cols: Columns, first: nat, keepDiag: bool) {
    keepDiag || forall l :: 0 <= l < |cols| ==> first + l !in cols[l]
  }

  lemma {:induction false} PushedSize(cols: Columns, first: nat, keepDiag: bool, k: nat)
    requires k <= |cols|
    ensures Prefix(Counts(cols, first, keepDiag), k) <= |Pushed(cols, first, k)|
    ensures Prefix(Counts(cols, first, keepDiag), k) == |Pushed(cols, first, k)| <==>
            keepDiag || forall l :: 0 <= l < k ==> first + l !in cols[l]
  {
    if k > 0 {
      PushedSize(cols, first, keepDiag, k - 1);
      PassesAgree(cols[k - 1], first + k - 1, keepDiag);
      var w := Counts(cols, first, keepDiag);
      assert Prefix(w, k) == Prefix(w, k - 1) + CountLower(cols[k - 1], first + k - 1, keepDiag);
      assert |Pushed(cols, first, k)| == |Pushed(cols, first, k - 1)| + |Lower(cols[k - 1], first + k - 1)|;
      hide Prefix, Pushed, CountLower, Lower, Counts;
    }
  }

  lemma PushedLonger(cols: Columns, first: nat, k: nat, from: nat, to: nat)
    requires 0 < k <= |cols| && from <= to <= |Pushed(cols, first, k - 1)|
    ensures to <= |Pushed(cols, first, k)|
    ensures Pushed(cols, first, k)[from..to] == Pushed(cols, first, k - 1)[from..to]
  {
    var front, back := Pushed(cols, first, k - 1), Lower(cols[k - 1], first + k - 1);
    assert Pushed(cols, first, k) == front + back;
    hide Pushed, Lower;
    SliceOfFirst(front, back, from, to);
  }

  lemma LastPushed(cols: Columns, first: nat, keepDiag: bool, k: nat)
    requires DiagonalCounted(cols, first, keepDiag) && 0 < k <= |cols|
    ensures var w := Counts(cols, first, keepDiag);
      && Prefix(w, k - 1) <= Prefix(w, k) <= |Pushed(cols, first, k)|
      && Pushed(cols, first, k)[Prefix(w, k - 1)..Prefix(w, k)] == Lower(cols[k - 1], first + k - 1)
  {
    var w := Counts(cols, first, keepDiag);
    var front, back := Pushed(cols, first, k - 1), Lower(cols[k - 1], first + k - 1);
    assert Pushed(cols, first, k) == front + back;
    assert Prefix(w, k) == Prefix(w, k - 1) + CountLower(cols[k - 1], first + k - 1, keepDiag);
    PushedSize(cols, first, keepDiag, k - 1);
    PassesAgree(cols[k - 1], first + k - 1, keepDiag);
    assert Prefix(w, k - 1) == |front| && Prefix(w, k) == |front| + |back|;
    hide Pushed, Lower, Prefix, Counts, CountLower, DiagonalCounted;
    Behind(front, back);
  }

  lemma Behind(front: seq<nat>, back: seq<nat>)
    ensures (front + back)[|front|..|front| + |back|] == back
  {
  }

  lemma {:induction false} PushedPart(cols: Columns, first: nat, keepDiag: bool, l: nat, k: nat)
    requires DiagonalCounted(cols, first, keepDiag) && l < k <= |cols|
    ensures var w := Counts(cols, first, keepDiag);
      && Prefix(w, l) <= Prefix(w, l + 1) <= |Pushed(cols, first, k)|
      && Pushed(cols, first, k)[Prefix(w, l)..Prefix(w, l + 1)] == Lower(cols[l], first + l)
    decreases k
  {
    hide Pushed, Lower, Prefix, Counts, DiagonalCounted;
    var w := Counts(cols, first, keepDiag);
    if l < k - 1 {
      PushedPart(cols, first, keepDiag, l, k - 1);
      PushedLonger(cols, first, k, Prefix(w, l), Prefix(w, l + 1));
    } else {
      LastPushed(cols, first, keepDiag, k);
    }
  }

  /** The result is consistent storage exactly when the diagonal is kept or was not stored: with
      keepDiag off and a stored diagonal the fill pass pushes more than the count pass counted. */
  lemma RestrictedIsValid(s: Csc, first: nat, keepDiag: bool, t: Csc)
    requires s.Valid() && IsRestricted(s, first, keepDiag, t)
    ensures t.Valid() <==> DiagonalCounted(s.Columns(), first, keepDiag)
    ensures t.Valid() ==> forall l :: 0 <= l < |s.colptr| - 1 ==> t.Column(l) == Lower(s.Column(l), first + l)
  {
    hide Prefix, Pushed, CountLower;
    var w := Counts(s.Columns(), first, keepDiag);
    var n := |s.colptr| - 1;
    PushedSize(s.Columns(), first, keepDiag, n);
    PrefixStarts(w);
    forall i, j | 0 <= i <= j < |t.colptr|
      ensures t.colptr[i] <= t.colptr[j]
    {
      PrefixMonotone(w, i, j);
    }
    if t.Valid() {
      forall l | 0 <= l < n
        ensures t.Column(l) == Lower(s.Column(l), first + l)
      {
        PushedPart(s.Columns(), first, keepDiag, l, n);
      }
    }
  }

  // ------------------------------------------------------------------------------------------
  // Restriction undoes expansion.
  // ------------------------------------------------------------------------------------------

  /** Lower-triangular storage. */
  ghost predicate IsLower(cols: Columns, first: nat) {
    forall l, j :: 0 <= l < |cols| && 0 <= j < |cols[l]| ==> cols[l][j] >= first + l
  }

  /** Everything received lies above the diagonal. */
  ghost predicate Upper(recv: seq<Entry>) {
    forall e :: e in recv ==> e.row < e.col
  }

  lemma {:induction false} FillIsUpper(recv: seq<Entry>, base: nat, c: nat)
    requires Upper(recv)
    ensures forall j :: 0 <= j < |Fill(recv, base, c)| ==> Fill(recv, base, c)[j] < c + base
    decreases |recv|
  {
    if recv != [] { FillIsUpper(recv[..|recv| - 1], base, c); }
  }

  lemma {:induction false} SentForIsUpper(base: nat, col: nat, rows: seq<nat>)
    ensures Upper(SentFor(ExpandRule(), base, col, rows))
    decreases |rows|
  {
    if rows != [] { SentForIsUpper(base, col, rows[..|rows| - 1]); }
  }

  lemma {:induction false} SentIsUpper(base: nat, first: nat, cols: Columns, k: nat)
    requires k <= |cols|
    ensures Upper(Sent(ExpandRule(), base, first, cols, k))
    decreases k
  {
    if k > 0 {
      SentIsUpper(base, first, cols, k - 1);
      SentForIsUpper(base, first + k - 1, cols[k - 1]);
    }
  }

  lemma RestrictUndoesColumn(cols: Columns, first: nat, recv: seq<Entry>, base: nat, l: nat)
    requires IsLower(cols, first + base) && Upper(recv) && l < |cols|
    ensures Lower(Content(cols, first, recv, base, l), first + base + l) == cols[l]
  {
    hide Lower, Fill;
    FillIsUpper(recv, base, first + l);
    LowerOfUpper(Fill(recv, base, first + l), first + base + l);
    LowerOfLower(cols[l], first + base + l);
    LowerAppend(Fill(recv, base, first + l), cols[l], first + base + l);
  }

  lemma UndoneColumn(s: Csc, first: nat, recv: seq<Entry>, s': Csc, l: nat)
    requires s.Valid() && IsLower(s.Columns(), first + s.base) && Upper(recv)
    requires IsExpanded(s, first, recv, s') && l < |s.colptr| - 1
    ensures Lower(s'.Columns()[l], first + s.base + l) == s.Columns()[l]
    ensures first + s.base + l in s'.Columns()[l] <==> first + s.base + l in s.Columns()[l]
  {
    hide Fill, Lower;
    assert s'.Columns()[l] == Content(s.Columns(), first, recv, s.base, l);
    RestrictUndoesColumn(s.Columns(), first, recv, s.base, l);
    FillIsUpper(recv, s.base, first + l);
  }

  /** ToSymmetric after ExpandSymmetric gives a rank back exactly the storage it started from, when
      the graph was marked as sorted, if and only if no diagonal entry goes uncounted; `first` counts
      from 0. */
  lemma RestrictUndoesExpand(s: Csc, first: nat, recv: seq<Entry>, s': Csc, keepDiag: bool, t: Csc)
    requires s.Valid() && IsLower(s.Columns(), first + s.base) && Upper(recv)
    requires IsExpanded(s, first, recv, s') && IsRestricted(s', first + s.base, keepDiag, t)
    ensures t == s <==> DiagonalCounted(s.Columns(), first + s.base, keepDiag)
  {
    hide Lower, IsLower, Upper, IsRestricted, Content;
    forall l | 0 <= l < |s.colptr| - 1
      ensures Lower(s'.Columns()[l], first + s.base + l) == s.Columns()[l]
      ensures first + s.base + l in s'.Columns()[l] <==> first + s.base + l in s.Columns()[l]
    {
      UndoneColumn(s, first, recv, s', l);
    }
    SameStorage(s, s', first + s.base, keepDiag, t);
  }

  lemma SameStorage(s: Csc, s': Csc, first: nat, keepDiag: bool, t: Csc)
    requires s.Valid() && s'.Valid() && s'.base == s.base && |s'.colptr| == |s.colptr|
    requires forall l :: 0 <= l < |s.colptr| - 1 ==> Lower(s'.Columns()[l], first + l) == s.Columns()[l]
    requires forall l :: 0 <= l < |s.colptr| - 1 ==> (first + l in s'.Columns()[l] <==> first + l in s.Columns()[l])
    requires IsRestricted(s', first, keepDiag, t)
    ensures t == s <==> DiagonalCounted(s.Columns(), first, keepDiag)
  {
    hide Lower, IsRestricted;
    RestrictedIsValid(s', first, keepDiag, t);
    RestrictedShape(s', first, keepDiag, t);
    if t.Valid() {
      assert t.Columns() == s.Columns();
      CscDetermined(t, s);
    }
  }

  lemma RestrictedShape(s: Csc, first: nat, keepDiag: bool, t: Csc)
    requires s.Valid() && IsRestricted(s, first, keepDiag, t)
    ensures t.base == s.base && |t.colptr| == |s.colptr|
  {
  }

  // ------------------------------------------------------------------------------------------
  // ... and up to sorting each column otherwise.
  // ------------------------------------------------------------------------------------------

  lemma {:induction false} LowerRows(s: seq<nat>, c: nat, r: nat)
    ensures multiset(Lower(s, c))[r] == if r >= c then multiset(s)[r] else 0
    decreases |s|
  {
    if s != [] {
      var front := s[..|s| - 1];
      LowerRows(front, c, r);
      assert s == front + [s[|s| - 1]];
    }
  }

  lemma {:induction false} LowerSelects(s: seq<nat>, c: nat, x: nat)
    requires x in Lower(s, c)
    ensures x in s
    decreases |s|
  {
    if x in Lower(s[..|s| - 1], c) { LowerSelects(s[..|s| - 1], c, x); }
  }

  lemma {:induction false} LowerKeepsOrder(s: seq<nat>, c: nat)
    requires NonDescending(s)
    ensures NonDescending(Lower(s, c))
    decreases |s|
  {
    if s != [] {
      var front, last := s[..|s| - 1], s[|s| - 1];
      LowerKeepsOrder(front, c);
      forall i | 0 <= i < |Lower(front, c)|
        ensures Lower(front, c)[i] <= last
      {
        LowerSelects(front, c, Lower(front, c)[i]);
      }
    }
  }

  /** Dropping the upper rows and sorting commute. */
  lemma LowerOfSorted(s: seq<nat>, c: nat)
    ensures Lower(Sorted(s), c) == Sorted(Lower(s, c))
  {
    hide Lower, Sorted, NonDescending;
    SortedIsSorted(s);
    SortedIsSorted(Lower(s, c));
    LowerKeepsOrder(Sorted(s), c);
    forall r: nat
      ensures multiset(Lower(Sorted(s), c))[r] == multiset(Sorted(Lower(s, c)))[r]
    {
      LowerRows(Sorted(s), c, r);
      LowerRows(s, c, r);
    }
    assert multiset(Lower(Sorted(s), c)) == multiset(Sorted(Lower(s, c)));
    SortedIsUnique(Lower(Sorted(s), c), Sorted(Lower(s, c)));
  }

  lemma SortedUndoneColumn(cols: Columns, first: nat, recv: seq<Entry>, base: nat, l: nat)
    requires IsLower(cols, first + base) && Upper(recv) && l < |cols|
    ensures var full := Content(cols, first, recv, base, l);
      && Lower(Sorted(full), first + base + l) == Sorted(cols[l])
      && (first + base + l in Sorted(full) <==> first + base + l in cols[l])
  {
    hide Lower, Sorted, Fill;
    var full := Content(cols, first, recv, base, l);
    RestrictUndoesColumn(cols, first, recv, base, l);
    FillIsUpper(recv, base, first + l);
    LowerOfSorted(full, first + base + l);
    SortedIsSorted(full);
    SameRows(full, Sorted(full), first + base + l);
  }

  /** t stores the columns of s sorted, in the same places. */
  ghost predicate SortedInPlace(s: Csc, t: Csc)
    requires s.Valid()
  {
    t.Valid() && t.base == s.base && t.colptr == s.colptr && t.Columns() == SortedColumns(s.Columns())
  }

  lemma SortedStorage(s: Csc, s': Csc, first: nat, keepDiag: bool, t: Csc)
    requires s.Valid() && s'.Valid() && s'.base == s.base && |s'.colptr| == |s.colptr|
    requires forall l :: 0 <= l < |s.colptr| - 1 ==> Lower(s'.Columns()[l], first + l) == SortedColumns(s.Columns())[l]
    requires forall l :: 0 <= l < |s.colptr| - 1 ==> (first + l in s'.Columns()[l] <==> first + l in s.Columns()[l])
    requires IsRestricted(s', first, keepDiag, t)
    ensures SortedInPlace(s, t) <==> DiagonalCounted(s.Columns(), first, keepDiag)
  {
    hide Lower, Sorted, IsRestricted;
    RestrictedIsValid(s', first, keepDiag, t);
    RestrictedShape(s', first, keepDiag, t);
    if t.Valid() {
      assert t.Columns() == SortedColumns(s.Columns());
      SamePointers(s, t, |s.colptr| - 1);
    }
  }

  lemma SameRows(a: seq<nat>, b: seq<nat>, x: nat)
    requires multiset(a) == multiset(b)
    ensures x in a <==> x in b
  {
    assert x in a <==> x in multiset(a);
    assert x in b <==> x in multiset(b);
  }

  lemma SamePointers(s: Csc, t: Csc, k: nat)
    requires s.Valid() && t.Valid() && s.base == t.base && |s.colptr| == |t.colptr|
    requires t.Columns() == SortedColumns(s.Columns())
    requires k == |s.colptr| - 1
    ensures s.colptr == t.colptr
  {
    forall i | 0 <= i < |s.colptr|
      ensures s.colptr[i] == t.colptr[i]
    {
      SamePointer(s, t, i);
    }
  }

  lemma {:induction false} SamePointer(s: Csc, t: Csc, i: nat)
    requires s.Valid() && t.Valid() && s.base == t.base && |s.colptr| == |t.colptr| && i < |s.colptr|
    requires t.Columns() == SortedColumns(s.Columns())
    ensures s.colptr[i] == t.colptr[i]
  {
    if i > 0 {
      SamePointer(s, t, i - 1);
      assert t.Columns()[i - 1] == Sorted(s.Columns()[i - 1]);
      assert |s.Column(i - 1)| == s.colptr[i] - s.colptr[i - 1];
      assert |t.Column(i - 1)| == t.colptr[i] - t.colptr[i - 1];
    }
  }
}
