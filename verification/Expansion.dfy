/** Expanding lower-triangular storage in place: the received entries are put in front of every
    column's own rows, the last received one first. */
module Expansion {
  import opened Sequences
  import opened SparseGraphs
  import opened Exchange

  /** The new rows of column c, as they end up in storage. */
  function Fill(recv: seq<Entry>, base: nat, c: nat): (rows: seq<nat>)
    decreases |recv|
  {
    if recv == [] then [] else
      var e := recv[|recv| - 1];
      (if e.col == c then [e.row + base] else []) + Fill(recv[..|recv| - 1], base, c)
  }

  lemma {:induction false} FillAppend(a: seq<Entry>, b: seq<Entry>, base: nat, c: nat)
    ensures Fill(a + b, base, c) == Fill(b, base, c) + Fill(a, base, c)
    decreases |b|
  {
    if b == [] {
      assert a + b == a;
      NothingFilled(base, c);
    } else {
      hide Fill;
      var front, e := b[..|b| - 1], b[|b| - 1];
      FillAppend(a, front, base, c);
      FillOne(a + front, e, base, c);
      FillOne(front, e, base, c);
      assert a + b == (a + front) + [e] && b == front + [e];
    }
  }

  lemma NothingFilled(base: nat, c: nat)
    ensures Fill([], base, c) == []
  {
  }

  lemma FillOne(a: seq<Entry>, e: Entry, base: nat, c: nat)
    ensures Fill(a + [e], base, c) == (if e.col == c then [e.row + base] else []) + Fill(a, base, c)
  {
    assert (a + [e])[..|a|] == a;
  }

  lemma FillGrows(a: seq<Entry>, all: seq<Entry>, base: nat, c: nat)
    requires a <= all
    ensures |Fill(a, base, c)| <= |Fill(all, base, c)|
  {
    assert all == a + all[|a|..];
    FillAppend(a, all[|a|..], base, c);
  }

  /** Every entry is for one of the nc columns from `first` on. */
  ghost predicate ForColumns(recv: seq<Entry>, first: nat, nc: nat) {
    forall e :: e in recv ==> first <= e.col < first + nc
  }

  /** The widths of the columns after expansion. */
  ghost function Widths(s: Csc, first: nat, recv: seq<Entry>): (w: seq<nat>)
    requires s.Valid()
    ensures |w| == |s.colptr| - 1
    ensures forall l :: 0 <= l < |w| ==> w[l] == |s.Column(l)| + |Fill(recv, s.base, first + l)|
  {
    seq(|s.colptr| - 1, l requires 0 <= l < |s.colptr| - 1 => |s.Column(l)| + |Fill(recv, s.base, first + l)|)
  }

  // ------------------------------------------------------------------------------------------
  // New column pointers: count, add the received entries, sum up.
  // ------------------------------------------------------------------------------------------

  method NewPointers(s: Csc, first: nat, recv: seq<Entry>) returns (newColptr: array<nat>)
    requires s.Valid() && ForColumns(recv, first, |s.colptr| - 1)
    ensures fresh(newColptr) && newColptr.Length == |s.colptr|
    ensures forall c :: 0 <= c < |s.colptr| ==> newColptr[c] == s.base + Prefix(Widths(s, first, recv), c)
  {
    var nc := |s.colptr| - 1;
    newColptr := new nat[nc + 1];
    newColptr[0] := 0;
    var col := nc;
    while col > 0
      invariant 0 <= col <= nc
      invariant forall c :: col <= c < nc ==> newColptr[c + 1] == |s.Column(c)|
      invariant newColptr[0] == 0
    {
      newColptr[col] := s.colptr[col] - s.colptr[col - 1];
      col := col - 1;
    }
    AddReceived(s, first, recv, newColptr);
    newColptr[0] := s.base;
    ghost var w := Widths(s, first, recv);
    SumUp(newColptr, w, s.base);
  }

  method AddReceived(s: Csc, first: nat, recv: seq<Entry>, counts: array<nat>)
    requires s.Valid() && ForColumns(recv, first, |s.colptr| - 1) && counts.Length == |s.colptr|
    requires forall c :: 0 <= c < |s.colptr| - 1 ==> counts[c + 1] == |s.Column(c)|
    modifies counts
    ensures forall c :: 0 <= c < |s.colptr| - 1 ==> counts[c + 1] == Widths(s, first, recv)[c]
  {
    hide Fill;
    var k := 0;
    EmptyFill(s.base);
    assert recv[..0] == [];
    while k < |recv|
      invariant 0 <= k <= |recv|
      invariant forall c :: 0 <= c < |s.colptr| - 1 ==>
        counts[c + 1] == |s.Column(c)| + |Fill(recv[..k], s.base, first + c)|
    {
      var e := recv[k];
      assert recv[..k + 1] == recv[..k] + [e];
      ghost var before := counts[..];
      assert first <= e.col < first + |s.colptr| - 1;
      counts[e.col - first + 1] := counts[e.col - first + 1] + 1;
      forall c | 0 <= c < |s.colptr| - 1
        ensures counts[c + 1] == |s.Column(c)| + |Fill(recv[..k + 1], s.base, first + c)|
      {
        FillOne(recv[..k], e, s.base, first + c);
        assert before[c + 1] == |s.Column(c)| + |Fill(recv[..k], s.base, first + c)|;
      }
      k := k + 1;
    }
    assert recv[..k] == recv;
  }

  lemma EmptyFill(base: nat)
    ensures forall c :: Fill([], base, c) == []
  {
  }

  method SumUp(counts: array<nat>, ghost w: seq<nat>, base: nat)
    requires counts.Length == |w| + 1 && counts[0] == base
    requires forall c :: 0 <= c < |w| ==> counts[c + 1] == w[c]
    modifies counts
    ensures forall c :: 0 <= c <= |w| ==> counts[c] == base + Prefix(w, c)
  {
    PrefixStarts(w);
    hide Prefix;
    var c := 1;
    while c < counts.Length
      invariant 1 <= c <= counts.Length
      invariant forall d :: 0 <= d < c ==> counts[d] == base + Prefix(w, d)
      invariant forall d :: c <= d <= |w| ==> counts[d] == w[d - 1]
    {
      PrefixNext(w, c - 1);
      counts[c] := counts[c] + counts[c - 1];
      c := c + 1;
    }
  }

  // ------------------------------------------------------------------------------------------
  // Shifting the columns to the ends of their new slots, last column first.
  // ------------------------------------------------------------------------------------------

  /** std::copy_backward on overlapping ranges of one array. */
  method CopyBackward(rows: array<nat>, from: nat, to: nat, end: nat)
    requires from <= to <= end <= rows.Length
    modifies rows
    ensures forall i :: end - (to - from) <= i < end ==> rows[i] == old(rows[i - (end - to)])
    ensures forall i :: 0 <= i < rows.Length && !(end - (to - from) <= i < end) ==> rows[i] == old(rows[i])
  {
    ghost var before := rows[..];
    var done := 0;
    while done < to - from
      invariant 0 <= done <= to - from
      invariant forall i :: end - done <= i < end ==> rows[i] == before[i - (end - to)]
      invariant forall i :: 0 <= i < end - done ==> rows[i] == before[i]
      invariant forall i :: end <= i < rows.Length ==> rows[i] == before[i]
    {
      rows[end - 1 - done] := rows[to - 1 - done];
      done := done + 1;
    }
  }

  /** Room for growing columns: new pointers that leave every column at least its old width. */
  ghost predicate Widened(colptr: seq<nat>, newColptr: seq<nat>, base: nat) {
    && |colptr| == |newColptr| >= 1 && colptr[0] == newColptr[0] == base
    && (forall i, j :: 0 <= i <= j < |colptr| ==> colptr[i] <= colptr[j])
    && (forall i, j :: 0 <= i <= j < |colptr| ==> newColptr[i] <= newColptr[j])
    && (forall i :: 0 <= i < |colptr| ==> colptr[i] <= newColptr[i])
    && (forall i, j :: 0 <= i < j < |colptr| && j == i + 1 ==> colptr[j] - colptr[i] <= newColptr[j] - newColptr[i])
  }

  /** The content sits at the end of the slot of column c. */
  ghost predicate AtEnd(rows: seq<nat>, end: nat, content: seq<nat>) {
    |content| <= end <= |rows| && rows[end - |content|..end] == content
  }

  /** Column c of the old storage is where the shift puts it. */
  ghost predicate Shifted(rows: seq<nat>, before: seq<nat>, colptr: seq<nat>, newColptr: seq<nat>, base: nat, c: nat)
    requires Widened(colptr, newColptr, base) && c < |colptr| - 1
  {
    && colptr[c + 1] - base <= |before| && newColptr[c + 1] - base <= |rows|
    && AtEnd(rows, newColptr[c + 1] - base, before[colptr[c] - base..colptr[c + 1] - base])
  }

  method ShiftColumns(rows: array<nat>, colptr: seq<nat>, newColptr: seq<nat>, base: nat)
    requires Widened(colptr, newColptr, base) && rows.Length == newColptr[|newColptr| - 1] - base
    modifies rows
    ensures forall c :: 0 <= c < |colptr| - 1 ==> Shifted(rows[..], old(rows[..]), colptr, newColptr, base, c)
  {
    ghost var before := rows[..];
    var col := |colptr| - 1;
    assert |newColptr| == |colptr| && base <= colptr[col] <= base + rows.Length;
    hide *;
    while col > 0
      invariant 0 <= col <= |colptr| - 1 && base <= colptr[col] <= base + rows.Length
      invariant forall i :: 0 <= i < colptr[col] - base ==> rows[i] == before[i]
      invariant forall c :: col <= c < |colptr| - 1 ==> Shifted(rows[..], before, colptr, newColptr, base, c)
    {
      ghost var mid := rows[..];
      ColumnBounds(colptr, newColptr, base, col);
      var from, to, end := colptr[col - 1] - base, colptr[col] - base, newColptr[col] - base;
      CopyBackward(rows, from, to, end);
      ShiftedHere(rows[..], before, colptr, newColptr, base, col - 1);
      StayShifted(mid, rows[..], before, colptr, newColptr, base, end, col);
      col := col - 1;
    }
  }

  lemma ColumnBounds(colptr: seq<nat>, newColptr: seq<nat>, base: nat, col: nat)
    requires Widened(colptr, newColptr, base) && 0 < col < |colptr|
    ensures base <= colptr[col - 1] <= colptr[col] <= newColptr[col] <= newColptr[|newColptr| - 1]
    ensures colptr[col - 1] <= newColptr[col] - (colptr[col] - colptr[col - 1])
    ensures forall c :: col <= c < |newColptr| ==> newColptr[col] <= newColptr[c]
  {
  }

  lemma ShiftedHere(rows: seq<nat>, before: seq<nat>, colptr: seq<nat>, newColptr: seq<nat>, base: nat, c: nat)
    requires Widened(colptr, newColptr, base) && c < |colptr| - 1
    requires colptr[c + 1] - base <= |before| && newColptr[c + 1] - base <= |rows|
    requires var from, to, end := colptr[c] - base, colptr[c + 1] - base, newColptr[c + 1] - base;
      0 <= from <= to <= end && forall i :: end - (to - from) <= i < end ==> rows[i] == before[i - (end - to)]
    ensures Shifted(rows, before, colptr, newColptr, base, c)
  {
  }

  /** Changing the array below the end of an earlier slot leaves later slots alone. */
  lemma KeptAbove(was: seq<nat>, now: seq<nat>, before: seq<nat>, colptr: seq<nat>, newColptr: seq<nat>, base: nat,
                  end: nat, c: nat)
    requires Widened(colptr, newColptr, base) && c < |colptr| - 1
    requires |was| == |now| && (forall i :: end <= i < |was| ==> was[i] == now[i]) && end + base <= newColptr[c]
    requires Shifted(was, before, colptr, newColptr, base, c)
    ensures Shifted(now, before, colptr, newColptr, base, c)
  {
    assert colptr[c + 1] - colptr[c] <= newColptr[c + 1] - newColptr[c];
  }

  lemma StayShifted(was: seq<nat>, now: seq<nat>, before: seq<nat>, colptr: seq<nat>, newColptr: seq<nat>, base: nat,
                    end: nat, col: nat)
    requires Widened(colptr, newColptr, base) && col < |colptr| == |newColptr| && end + base == newColptr[col]
    requires |was| == |now| && forall i :: end <= i < |was| ==> was[i] == now[i]
    requires forall c :: col <= c < |colptr| - 1 ==> Shifted(was, before, colptr, newColptr, base, c)
    ensures forall c :: col <= c < |colptr| - 1 ==> Shifted(now, before, colptr, newColptr, base, c)
  {
    hide Shifted;
    forall c | col <= c < |colptr| - 1
      ensures Shifted(now, before, colptr, newColptr, base, c)
    {
      assert newColptr[col] <= newColptr[c];
      KeptAbove(was, now, before, colptr, newColptr, base, end, c);
    }
  }

  // ------------------------------------------------------------------------------------------
  // Filling the slots from right to left.
  // ------------------------------------------------------------------------------------------

  /** Slot c, between the pointers, has `content` at its end so far. */
  ghost predicate SlotHolds(rows: seq<nat>, ptr: seq<nat>, base: nat, c: nat, content: seq<nat>) {
    && c + 1 < |ptr| && base <= ptr[c] && ptr[c] + |content| <= ptr[c + 1] <= base + |rows|
    && AtEnd(rows, ptr[c + 1] - base, content)
  }

  lemma SlotGrows(rows: seq<nat>, ptr: seq<nat>, base: nat, c: nat, content: seq<nat>, x: nat)
    requires SlotHolds(rows, ptr, base, c, content) && ptr[c] + |content| < ptr[c + 1]
    ensures var pos := ptr[c + 1] - |content| - 1 - base;
      0 <= pos < |rows| && SlotHolds(rows[pos := x], ptr, base, c, [x] + content)
  {
  }

  lemma SlotKept(rows: seq<nat>, ptr: seq<nat>, base: nat, c: nat, content: seq<nat>, pos: nat, x: nat)
    requires SlotHolds(rows, ptr, base, c, content) && pos < |rows|
    requires base + pos < ptr[c] || ptr[c + 1] <= base + pos
    ensures SlotHolds(rows[pos := x], ptr, base, c, content)
  {
  }

  /** What column c holds after the first k received entries. */
  ghost function Content(cols: Columns, first: nat, recv: seq<Entry>, base: nat, c: nat): seq<nat>
    requires c < |cols|
  {
    Fill(recv, base, first + c) + cols[c]
  }

  /** The slot of column c has exactly the room the expanded column needs. */
  ghost predicate SlotFits(ptr: seq<nat>, cols: Columns, first: nat, recv: seq<Entry>, base: nat, c: nat) {
    c < |cols| && c + 1 < |ptr| && ptr[c + 1] == ptr[c] + |Content(cols, first, recv, base, c)|
  }

  ghost predicate FillState(rows: seq<nat>, ptr: seq<nat>, counts: seq<nat>, cols: Columns, first: nat,
                            recv: seq<Entry>, base: nat) {
    && |counts| == |ptr| == |cols| + 1
    && forall c :: 0 <= c < |cols| ==>
         var content := Content(cols, first, recv, base, c);
         counts[c + 1] == |content| && SlotHolds(rows, ptr, base, c, content)
  }

  lemma FillStep(rows: seq<nat>, ptr: seq<nat>, counts: seq<nat>, cols: Columns, first: nat, recv: seq<Entry>,
                 base: nat, e: Entry)
    requires FillState(rows, ptr, counts, cols, first, recv, base)
    requires (forall i, j :: 0 <= i <= j < |ptr| ==> ptr[i] <= ptr[j])
    requires first <= e.col < first + |cols|
    requires var c := e.col - first; ptr[c] + |Content(cols, first, recv + [e], base, c)| <= ptr[c + 1]
    ensures var c := e.col - first; var pos: int := ptr[c + 1] as int - counts[c + 1] - 1;
      && base <= pos < base + |rows|
      && FillState(rows[pos - base := e.row + base], ptr, counts[c + 1 := counts[c + 1] + 1], cols, first, recv + [e],
                   base)
  {
    hide SlotHolds, Fill;
    var c := e.col - first;
    var x := e.row + base;
    FillOne(recv, e, base, e.col);
    var content := Content(cols, first, recv, base, c);
    assert Content(cols, first, recv + [e], base, c) == [x] + content;
    assert SlotHolds(rows, ptr, base, c, content);
    SlotGrows(rows, ptr, base, c, content, x);
    var pos := ptr[c + 1] - |content| - 1 - base;
    forall d | 0 <= d < |cols|
      ensures SlotHolds(rows[pos := x], ptr, base, d, Content(cols, first, recv + [e], base, d))
      ensures d != c ==> counts[d + 1] == |Content(cols, first, recv + [e], base, d)|
    {
      if d != c {
        FillOne(recv, e, base, first + d);
        assert Content(cols, first, recv + [e], base, d) == Content(cols, first, recv, base, d);
        SlotKept(rows, ptr, base, d, Content(cols, first, recv, base, d), pos, x);
      }
    }
  }

  method Unpack(rows: array<nat>, ptr: seq<nat>, counts: array<nat>, recv: seq<Entry>, first: nat, base: nat,
                ghost cols: Columns)
    requires FillState(rows[..], ptr, counts[..], cols, first, [], base)
    requires ForColumns(recv, first, |cols|) && rows != counts
    requires forall i, j :: 0 <= i <= j < |ptr| ==> ptr[i] <= ptr[j]
    requires forall c :: 0 <= c < |cols| ==> SlotFits(ptr, cols, first, recv, base, c)
    modifies rows, counts
    ensures FillState(rows[..], ptr, counts[..], cols, first, recv, base)
  {
    assert |ptr| == |cols| + 1 == counts.Length;
    hide FillState, Fill;
    var k := 0;
    assert recv[..0] == [];
    while k < |recv|
      invariant 0 <= k <= |recv|
      invariant FillState(rows[..], ptr, counts[..], cols, first, recv[..k], base)
    {
      var e := recv[k];
      assert recv[..k + 1] == recv[..k] + [e];
      FillGrows(recv[..k + 1], recv, base, e.col);
      assert SlotFits(ptr, cols, first, recv, base, e.col - first);
      UnpackOne(rows, ptr, counts, e, first, base, cols, recv[..k]);
      k := k + 1;
    }
    assert recv[..k] == recv;
  }

  method UnpackOne(rows: array<nat>, ptr: seq<nat>, counts: array<nat>, e: Entry, first: nat, base: nat,
                   ghost cols: Columns, ghost recv: seq<Entry>)
    requires FillState(rows[..], ptr, counts[..], cols, first, recv, base) && rows != counts
    requires forall i, j :: 0 <= i <= j < |ptr| ==> ptr[i] <= ptr[j]
    requires first <= e.col < first + |cols|
    requires var c := e.col - first; ptr[c] + |Content(cols, first, recv + [e], base, c)| <= ptr[c + 1]
    modifies rows, counts
    ensures FillState(rows[..], ptr, counts[..], cols, first, recv + [e], base)
  {
    ghost var r: seq<nat>, c: seq<nat> := rows[..], counts[..];
    FillStep(r, ptr, c, cols, first, recv, base, e);
    hide FillState, Fill;
    var locCol := e.col - first;
    var pos := ptr[locCol + 1] - counts[locCol + 1] - 1;
    counts[locCol + 1] := counts[locCol + 1] + 1;
    rows[pos - base] := e.row + base;
    assert rows[..] == r[pos - base := e.row + base];
    assert counts[..] == c[locCol + 1 := c[locCol + 1] + 1];
  }

  // ------------------------------------------------------------------------------------------
  // The whole local expansion.
  // ------------------------------------------------------------------------------------------

  /** s' is s with the received entries put in. */
  ghost predicate IsExpanded(s: Csc, first: nat, recv: seq<Entry>, s': Csc)
    requires s.Valid()
  {
    && s'.Valid() && s'.base == s.base && |s'.colptr| == |s.colptr|
    && forall l :: 0 <= l < |s.colptr| - 1 ==> s'.Columns()[l] == Content(s.Columns(), first, recv, s.base, l)
  }

  lemma PointersWiden(s: Csc, first: nat, recv: seq<Entry>, ptr: seq<nat>)
    requires s.Valid() && |ptr| == |s.colptr|
    requires forall c :: 0 <= c < |ptr| ==> ptr[c] == s.base + Prefix(Widths(s, first, recv), c)
    ensures Widened(s.colptr, ptr, s.base)
    ensures forall l :: 0 <= l < |s.colptr| - 1 ==> SlotFits(ptr, s.Columns(), first, recv, s.base, l)
  {
    hide Prefix, Fill;
    var w := Widths(s, first, recv);
    PrefixStarts(w);
    forall i, j | 0 <= i <= j < |ptr|
      ensures ptr[i] <= ptr[j]
    {
      PrefixMonotone(w, i, j);
    }
    forall i | 0 <= i < |ptr|
      ensures s.colptr[i] <= ptr[i]
    {
      OldPointersBelow(s, w, i);
    }
    forall l | 0 <= l < |s.colptr| - 1
      ensures SlotFits(ptr, s.Columns(), first, recv, s.base, l)
      ensures s.colptr[l + 1] - s.colptr[l] <= ptr[l + 1] - ptr[l]
    {
      PrefixNext(w, l);
      assert |s.Column(l)| == s.colptr[l + 1] - s.colptr[l];
    }
  }

  lemma PrefixStarts(w: seq<nat>)
    ensures Prefix(w, 0) == 0
  {
  }

  lemma PrefixNext(w: seq<nat>, k: nat)
    requires k < |w|
    ensures Prefix(w, k + 1) == Prefix(w, k) + w[k]
  {
  }

  lemma {:induction false} OldPointersBelow(s: Csc, w: seq<nat>, i: nat)
    requires s.Valid() && i < |s.colptr| && |w| == |s.colptr| - 1
    requires forall l :: 0 <= l < |w| ==> w[l] >= |s.Column(l)|
    ensures s.colptr[i] <= s.base + Prefix(w, i)
  {
    if i > 0 {
      OldPointersBelow(s, w, i - 1);
      assert w[i - 1] >= |s.Column(i - 1)|;
    }
  }

  /** After the shift every slot holds its old column. */
  lemma ShiftedState(s: Csc, first: nat, ptr: seq<nat>, counts: seq<nat>, resized: seq<nat>, rows: seq<nat>)
    requires s.Valid() && Widened(s.colptr, ptr, s.base) && |counts| == |ptr|
    requires |resized| == |rows| && |s.rowind| <= |resized| && resized[..|s.rowind|] == s.rowind
    requires ptr[|ptr| - 1] == s.base + |rows|
    requires forall c :: 0 <= c < |s.colptr| - 1 ==> Shifted(rows, resized, s.colptr, ptr, s.base, c)
    requires forall c :: 0 <= c < |s.colptr| - 1 ==> counts[c + 1] == |s.Column(c)|
    ensures FillState(rows, ptr, counts, s.Columns(), first, [], s.base)
  {
    assert |ptr| == |s.colptr|;
    hide Widened, Shifted, SlotHolds, Csc.Column, Csc.Valid;
    forall c | 0 <= c < |s.colptr| - 1
      ensures var content := Content(s.Columns(), first, [], s.base, c);
        counts[c + 1] == |content| && SlotHolds(rows, ptr, s.base, c, content)
    {
      assert Content(s.Columns(), first, [], s.base, c) == s.Column(c);
      ShiftedSlot(s, ptr, resized, rows, c);
    }
  }

  lemma ShiftedSlot(s: Csc, ptr: seq<nat>, resized: seq<nat>, rows: seq<nat>, c: nat)
    requires s.Valid() && Widened(s.colptr, ptr, s.base) && c < |s.colptr| - 1
    requires |resized| == |rows| && |s.rowind| <= |resized| && resized[..|s.rowind|] == s.rowind
    requires ptr[|ptr| - 1] == s.base + |rows| && Shifted(rows, resized, s.colptr, ptr, s.base, c)
    ensures SlotHolds(rows, ptr, s.base, c, s.Column(c))
  {
    assert s.colptr[0] <= s.colptr[c] <= s.colptr[c + 1] <= s.colptr[|s.colptr| - 1];
    var from, to := s.colptr[c] - s.base, s.colptr[c + 1] - s.base;
    SliceOfSlice(resized, 0, |s.rowind|, from, to);
    assert resized[0..|s.rowind|] == resized[..|s.rowind|];
  }

  /** Full slots are the new columns. */
  lemma FullState(s: Csc, first: nat, recv: seq<Entry>, ptr: seq<nat>, counts: seq<nat>, rows: seq<nat>)
    requires s.Valid() && Widened(s.colptr, ptr, s.base) && ptr[|ptr| - 1] == s.base + |rows|
    requires FillState(rows, ptr, counts, s.Columns(), first, recv, s.base)
    requires forall l :: 0 <= l < |s.colptr| - 1 ==> SlotFits(ptr, s.Columns(), first, recv, s.base, l)
    ensures IsExpanded(s, first, recv, Csc(s.base, ptr, rows))
  {
    var s' := Csc(s.base, ptr, rows);
    forall l | 0 <= l < |s.colptr| - 1
      ensures s'.Column(l) == Content(s.Columns(), first, recv, s.base, l)
    {
      assert SlotFits(ptr, s.Columns(), first, recv, s.base, l);
      assert SlotHolds(rows, ptr, s.base, l, Content(s.Columns(), first, recv, s.base, l));
    }
  }

  /** New pointers, shift in place, then fill. */
  method ExpandLocal(s: Csc, first: nat, recv: seq<Entry>) returns (s': Csc)
    requires s.Valid() && ForColumns(recv, first, |s.colptr| - 1)
    ensures IsExpanded(s, first, recv, s')
  {
    hide Widths, Shifted, FillState, Prefix, Fill, Widened, IsExpanded;
    var newColptr := NewPointers(s, first, recv);
    ghost var ptr := newColptr[..];
    PointersWiden(s, first, recv, ptr);
    WidenedLast(s.colptr, ptr, s.base);
    var newNNZ := newColptr[|s.colptr| - 1] - s.base;
    var rows := new nat[newNNZ](i requires 0 <= i < newNNZ => if i < |s.rowind| then s.rowind[i] else 0);
    ghost var resized := rows[..];
    assert resized[..|s.rowind|] == s.rowind;
    ShiftColumns(rows, s.colptr, newColptr[..], s.base);
    var counts := ColumnCounts(s);
    assert newColptr[..] == ptr;
    ShiftedState(s, first, ptr, counts[..], resized, rows[..]);
    WidenedMonotone(s.colptr, ptr, s.base);
    Unpack(rows, newColptr[..], counts, recv, first, s.base, s.Columns());
    assert newColptr[..] == ptr;
    FullState(s, first, recv, ptr, counts[..], rows[..]);
    s' := Csc(s.base, newColptr[..], rows[..]);
  }

  lemma WidenedLast(colptr: seq<nat>, ptr: seq<nat>, base: nat)
    requires Widened(colptr, ptr, base)
    ensures |ptr| == |colptr| && base <= colptr[|colptr| - 1] <= ptr[|ptr| - 1]
  {
  }

  lemma WidenedMonotone(colptr: seq<nat>, ptr: seq<nat>, base: nat)
    requires Widened(colptr, ptr, base)
    ensures |ptr| == |colptr| && forall i, j :: 0 <= i <= j < |ptr| ==> ptr[i] <= ptr[j]
  {
  }

  /** colptr turned into counts. */
  method ColumnCounts(s: Csc) returns (counts: array<nat>)
    requires s.Valid()
    ensures fresh(counts) && counts.Length == |s.colptr|
    ensures forall c :: 0 <= c < |s.colptr| - 1 ==> counts[c + 1] == |s.Column(c)|
  {
    counts := new nat[|s.colptr|];
    counts[0] := s.colptr[0];
    var col := |s.colptr| - 1;
    while col > 0
      invariant 0 <= col < |s.colptr|
      invariant forall c :: col <= c < |s.colptr| - 1 ==> counts[c + 1] == |s.Column(c)|
    {
      counts[col] := s.colptr[col] - s.colptr[col - 1];
      col := col - 1;
    }
  }
}
