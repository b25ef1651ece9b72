/** Sorting the rows of each column. */
module SortedRows {
  import opened SparseGraphs
  import opened Sorting

  function Same(x: nat): nat { x }

  /** What std::sort makes of a run of row indices. */
  function Sorted(s: seq<nat>): (r: seq<nat>)
    ensures |r| == |s|
  {
    SortedWith(s, Same)
  }

  lemma SortedIsSorted(s: seq<nat>)
    ensures NonDescending(Sorted(s)) && multiset(Sorted(s)) == multiset(s)
  {
    SortedWithIsSorted(s, Same);
    var r := Sorted(s);
    forall i, j | 0 <= i < j < |r| ensures r[i] <= r[j] {
      assert Same(r[i]) <= Same(r[j]);
    }
  }

  lemma TailRows(a: seq<nat>)
    requires a != []
    ensures multiset(a[1..]) == multiset(a) - multiset{a[0]}
  {
    assert a == [a[0]] + a[1..];
  }

  lemma SameSize(a: seq<nat>, b: seq<nat>)
    requires multiset(a) == multiset(b)
    ensures |a| == |b|
  {
    assert |a| == |multiset(a)| && |b| == |multiset(b)|;
  }

  lemma SameHead(a: seq<nat>, b: seq<nat>)
    requires NonDescending(a) && NonDescending(b) && multiset(a) == multiset(b) && a != [] && b != []
    ensures a[0] == b[0]
  {
    assert a[0] in multiset(b) && b[0] in multiset(a);
    assert a[0] in b && b[0] in a;
  }

  lemma TailIsNonDescending(a: seq<nat>)
    requires NonDescending(a) && a != []
    ensures NonDescending(a[1..])
  {
  }

  /** Sorted rows are determined by their multiset. */
  lemma {:induction false} SortedIsUnique(a: seq<nat>, b: seq<nat>)
    requires NonDescending(a) && NonDescending(b) && multiset(a) == multiset(b)
    ensures a == b
    decreases |a|
  {
    SameSize(a, b);
    if a != [] {
      SameHead(a, b);
      TailRows(a);
      TailRows(b);
      TailIsNonDescending(a);
      TailIsNonDescending(b);
      hide NonDescending;
      SortedIsUnique(a[1..], b[1..]);
      assert a == [a[0]] + a[1..] && b == [b[0]] + b[1..];
    }
  }

  ghost function SortedColumns(cols: Columns): (r: Columns)
    ensures |r| == |cols| && forall c :: 0 <= c < |cols| ==> r[c] == Sorted(cols[c])
  {
    seq(|cols|, c requires 0 <= c < |cols| => Sorted(cols[c]))
  }

  /** The columns before k are sorted, the others as before. */
  ghost predicate PartlySorted(s: Csc, t: Csc, k: nat) {
    && s.Valid() && t.Valid() && t.base == s.base && t.colptr == s.colptr
    && (forall l :: 0 <= l < k && l < |s.colptr| - 1 ==> t.Column(l) == Sorted(s.Column(l)))
    && (forall l :: k <= l < |s.colptr| - 1 ==> t.Column(l) == s.Column(l))
  }

  lemma PointersInOrder(t: Csc, i: nat, j: nat)
    requires t.Valid() && i <= j < |t.colptr|
    ensures t.base <= t.colptr[i] <= t.colptr[j] <= t.base + |t.rowind|
  {
    assert t.colptr[0] <= t.colptr[i] <= t.colptr[j] <= t.colptr[|t.colptr| - 1];
  }

  lemma ColumnIs(t: Csc, l: nat)
    requires t.Valid() && l + 1 < |t.colptr|
    ensures t.base <= t.colptr[l] <= t.colptr[l + 1] <= t.base + |t.rowind|
    ensures t.Column(l) == t.rowind[t.colptr[l] - t.base..t.colptr[l + 1] - t.base]
  {
    PointersInOrder(t, l, l + 1);
  }

  lemma OtherRows(t: Csc, rows: seq<nat>)
    requires t.Valid() && |rows| == |t.rowind|
    ensures Csc(t.base, t.colptr, rows).Valid()
  {
  }

  /** Replacing one column leaves the others alone. */
  lemma OneColumnReplaced(t: Csc, part: seq<nat>, rows: seq<nat>, c: nat, l: nat)
    requires t.Valid() && c < |t.colptr| - 1 && l < |t.colptr| - 1
    requires t.base <= t.colptr[c] <= t.colptr[c + 1] <= t.base + |t.rowind|
    requires |part| == t.colptr[c + 1] - t.colptr[c]
    requires rows == Replaced(t.rowind, part, t.colptr[c] - t.base, t.colptr[c + 1] - t.base)
    ensures Csc(t.base, t.colptr, rows).Valid()
    ensures Csc(t.base, t.colptr, rows).Column(l) == if l == c then part else t.Column(l)
  {
    var a, b, from, to := t.colptr[c] - t.base, t.colptr[c + 1] - t.base, t.colptr[l] - t.base,
      t.colptr[l + 1] - t.base;
    ColumnIs(t, l);
    MiddleReplaced(t.rowind, part, a, b, from, to);
    hide Replaced;
    OtherRows(t, rows);
    ColumnIs(Csc(t.base, t.colptr, rows), l);
    if l < c { PointersInOrder(t, l + 1, c); }
    if l > c { PointersInOrder(t, c + 1, l); }
    hide Csc.Valid, Csc.Column;
  }

  /** The entries a .. b - 1 replaced by as many others. */
  function Replaced(s: seq<nat>, part: seq<nat>, a: nat, b: nat): (r: seq<nat>)
    requires a <= b <= |s| && |part| == b - a
    ensures |r| == |s|
  {
    s[..a] + part + s[b..]
  }

  lemma MiddleReplaced(s: seq<nat>, part: seq<nat>, a: nat, b: nat, from: nat, to: nat)
    requires a <= b <= |s| && |part| == b - a && from <= to <= |s|
    ensures var rows := Replaced(s, part, a, b);
      && (to <= a || b <= from ==> rows[from..to] == s[from..to])
      && (from == a && to == b ==> rows[from..to] == part)
  {
    var rows := Replaced(s, part, a, b);
    forall i | from <= i < to
      ensures i < a || b <= i ==> rows[i] == s[i]
      ensures a <= i < b ==> rows[i] == part[i - a]
    {
      assert i < a ==> rows[i] == s[..a][i];
      assert b <= i ==> rows[i] == s[b..][i - b];
    }
    if from == a && to == b {
      assert rows[from..to] == part;
    }
  }

  lemma SortStep(s: Csc, t: Csc, k: nat, rows: seq<nat>)
    requires PartlySorted(s, t, k) && k < |s.colptr| - 1
    requires t.base <= t.colptr[k] <= t.colptr[k + 1] <= t.base + |t.rowind|
    requires var from, to := t.colptr[k] - t.base, t.colptr[k + 1] - t.base;
      rows == Replaced(t.rowind, Sorted(t.rowind[from..to]), from, to)
    ensures PartlySorted(s, Csc(t.base, t.colptr, rows), k + 1)
  {
    var part, t' := Sorted(t.Column(k)), Csc(t.base, t.colptr, rows);
    OtherRows(t, rows);
    hide Sorted, Csc.Valid, Replaced;
    forall l | 0 <= l < |s.colptr| - 1
      ensures t'.Column(l) == if l == k then Sorted(s.Column(k)) else t.Column(l)
    {
      OneColumnReplaced(t, part, rows, k, l);
    }
    hide Csc.Column;
  }

  /** Sorts every column in place; the column pointers stay. */
  method SortEdges(s: Csc) returns (t: Csc)
    requires s.Valid()
    ensures t.Valid() && t.base == s.base && t.colptr == s.colptr
    ensures t.Columns() == SortedColumns(s.Columns())
  {
    hide Csc.Column, Sorted, Replaced;
    t := s;
    var locCol := 0;
    while locCol < |s.colptr| - 1
      invariant 0 <= locCol <= |s.colptr| - 1
      invariant PartlySorted(s, t, locCol)
    {
      PointersInOrder(t, locCol, locCol + 1);
      var colbeg, colend := t.colptr[locCol] - t.base, t.colptr[locCol + 1] - t.base;
      var rows := Replaced(t.rowind, Sorted(t.rowind[colbeg..colend]), colbeg, colend);
      SortStep(s, t, locCol, rows);
      t := Csc(t.base, t.colptr, rows);
      locCol := locCol + 1;
    }
    assert forall l :: 0 <= l < |s.colptr| - 1 ==> t.Columns()[l] == SortedColumns(s.Columns())[l];
  }
}
