/** The two passes over stored entries that fill a send buffer by destination, and the exchange.
    Both ExpandSymmetric and permute_ send entries to the rank that owns their column. */
module Exchange {
  import opened Sequences
  import opened SparseGraphs
  import opened DistGraphs

  datatype Option<+T> = None | Some(value: T)

  /** Store `row` in column `col`; both count from 0. */
  datatype Entry = Entry(col: nat, row: nat)

  /** What a pass sends for a stored entry (column, row), counted from 0. */
  type Rule = (nat, nat) -> Option<Entry>

  /** The entries sent for the stored rows of one column, in storage order. */
  function SentFor(rule: Rule, base: nat, col: nat, rows: seq<nat>): (out: seq<Entry>)
    decreases |rows|
  {
    if rows == [] then [] else
      var row := rows[|rows| - 1];
      SentFor(rule, base, col, rows[..|rows| - 1]) +
      match rule(col, if row >= base then row - base else 0)
      case None => []
      case Some(e) => [e]
  }

  /** The entries sent for the first k local columns, the first of them being column `first`. */
  ghost function Sent(rule: Rule, base: nat, first: nat, cols: Columns, k: nat): (out: seq<Entry>)
    requires k <= |cols|
  {
    if k == 0 then [] else
      Sent(rule, base, first, cols, k - 1) + SentFor(rule, base, first + k - 1, cols[k - 1])
  }

  /** The rank that owns column col (counted from 0). */
  function Destination(vertexDist: seq<nat>, base: nat, col: nat): (p: nat)
    requires |vertexDist| >= 1
    ensures p < |vertexDist|
  {
    Owner(vertexDist, col + base, 0)
  }

  /** The part of a message sequence that goes to rank p. */
  function ForRank(out: seq<Entry>, vertexDist: seq<nat>, base: nat, p: nat): (part: seq<Entry>)
    requires |vertexDist| >= 1
    ensures |part| <= |out|
    decreases |out|
  {
    if out == [] then [] else
      var e := out[|out| - 1];
      ForRank(out[..|out| - 1], vertexDist, base, p) +
      if Destination(vertexDist, base, e.col) == p then [e] else []
  }

  lemma {:induction false} ForRankAppend(a: seq<Entry>, b: seq<Entry>, vertexDist: seq<nat>, base: nat, p: nat)
    requires |vertexDist| >= 1
    ensures ForRank(a + b, vertexDist, base, p) == ForRank(a, vertexDist, base, p) + ForRank(b, vertexDist, base, p)
    decreases |b|
  {
    if b == [] {
      assert a + b == a;
    } else {
      var b' := b[..|b| - 1];
      assert (a + b)[..|a + b| - 1] == a + b';
      ForRankAppend(a, b', vertexDist, base, p);
    }
  }

  lemma ForRankOne(out: seq<Entry>, e: Entry, vertexDist: seq<nat>, base: nat, p: nat)
    requires |vertexDist| >= 1
    ensures ForRank(out + [e], vertexDist, base, p) ==
            ForRank(out, vertexDist, base, p) + if Destination(vertexDist, base, e.col) == p then [e] else []
  {
    assert (out + [e])[..|out|] == out;
  }

  /** A prefix sends no more than the whole. */
  lemma ForRankPart(out: seq<Entry>, rest: seq<Entry>, vertexDist: seq<nat>, base: nat, p: nat)
    requires |vertexDist| >= 1
    ensures |ForRank(out, vertexDist, base, p)| <= |ForRank(out + rest, vertexDist, base, p)|
  {
    ForRankAppend(out, rest, vertexDist, base, p);
  }

  /** Every entry has a destination. */
  ghost predicate Routed(out: seq<Entry>, vertexDist: seq<nat>, base: nat, np: nat)
    requires |vertexDist| >= 1
  {
    forall e :: e in out ==> Destination(vertexDist, base, e.col) < np
  }

  /** The destination sizes of the entries counted so far. */
  ghost predicate SizesCount(out: seq<Entry>, vertexDist: seq<nat>, base: nat, sizes: seq<nat>) {
    && |vertexDist| == |sizes| + 1
    && forall p :: 0 <= p < |sizes| ==> sizes[p] == |ForRank(out, vertexDist, base, p)|
  }

  lemma CountStep(out: seq<Entry>, vertexDist: seq<nat>, base: nat, sizes: seq<nat>, e: Entry)
    requires SizesCount(out, vertexDist, base, sizes) && Destination(vertexDist, base, e.col) < |sizes|
    ensures var p := Destination(vertexDist, base, e.col);
      SizesCount(out + [e], vertexDist, base, sizes[p := sizes[p] + 1])
  {
    hide ForRank, Destination, Prefix;
    var p := Destination(vertexDist, base, e.col);
    forall q | 0 <= q < |sizes|
      ensures sizes[p := sizes[p] + 1][q] == |ForRank(out + [e], vertexDist, base, q)|
    {
      ForRankOne(out, e, vertexDist, base, q);
    }
  }

  function Prefix(sizes: seq<nat>, k: nat): (r: nat)
    requires k <= |sizes|
  {
    if k == 0 then 0 else Prefix(sizes, k - 1) + sizes[k - 1]
  }

  lemma {:induction false} PrefixMonotone(sizes: seq<nat>, j: nat, k: nat)
    requires j <= k <= |sizes|
    ensures Prefix(sizes, j) <= Prefix(sizes, k)
    ensures j < k ==> Prefix(sizes, j) + sizes[j] <= Prefix(sizes, k)
    decreases k
  {
    if j < k { PrefixMonotone(sizes, j, k - 1); }
  }

  /** The buffer holds the entries packed so far, each destination's in order from its displacement on. */
  ghost predicate Packed(out: seq<Entry>, vertexDist: seq<nat>, base: nat, sizes: seq<nat>, displs: seq<nat>,
                         buf: seq<Entry>) {
    && |vertexDist| == |sizes| + 1 && |displs| == |sizes| && |buf| == Prefix(sizes, |sizes|)
    && forall p :: 0 <= p < |sizes| ==> PackedFor(out, vertexDist, base, sizes, displs[p], buf, p)
  }

  ghost predicate PackedFor(out: seq<Entry>, vertexDist: seq<nat>, base: nat, sizes: seq<nat>, displ: nat,
                            buf: seq<Entry>, p: nat)
    requires |vertexDist| == |sizes| + 1 && p < |sizes|
  {
    && Prefix(sizes, p) <= displ <= |buf|
    && buf[Prefix(sizes, p)..displ] == ForRank(out, vertexDist, base, p)
  }

  /** Packing an entry for p leaves the part of another destination q alone. */
  lemma PackKeeps(out: seq<Entry>, rest: seq<Entry>, vertexDist: seq<nat>, base: nat, sizes: seq<nat>,
                  displ: nat, buf: seq<Entry>, e: Entry, q: nat, at: nat)
    requires SizesCount(out + [e] + rest, vertexDist, base, sizes) && Destination(vertexDist, base, e.col) < |sizes|
    requires q < |sizes| && q != Destination(vertexDist, base, e.col)
    requires PackedFor(out, vertexDist, base, sizes, displ, buf, q)
    requires var p := Destination(vertexDist, base, e.col); Prefix(sizes, p) <= at < Prefix(sizes, p) + sizes[p]
    requires at < |buf|
    ensures PackedFor(out + [e], vertexDist, base, sizes, displ, buf[at := e], q)
  {
    hide ForRank, Destination, Prefix;
    var p := Destination(vertexDist, base, e.col);
    ForRankPart(out + [e], rest, vertexDist, base, q);
    ForRankOne(out, e, vertexDist, base, q);
    assert displ <= Prefix(sizes, q) + sizes[q];
    if q < p { PrefixMonotone(sizes, q, p); } else { PrefixMonotone(sizes, p, q); }
    assert buf[at := e][Prefix(sizes, q)..displ] == buf[Prefix(sizes, q)..displ];
  }

  /** Room for the next entry of its destination. */
  lemma PackRoom(out: seq<Entry>, rest: seq<Entry>, vertexDist: seq<nat>, base: nat, sizes: seq<nat>,
                 displ: nat, buf: seq<Entry>, e: Entry)
    requires SizesCount(out + [e] + rest, vertexDist, base, sizes) && Destination(vertexDist, base, e.col) < |sizes|
    requires |buf| == Prefix(sizes, |sizes|)
    requires PackedFor(out, vertexDist, base, sizes, displ, buf, Destination(vertexDist, base, e.col))
    ensures var p := Destination(vertexDist, base, e.col);
      && Prefix(sizes, p) <= displ < Prefix(sizes, p) + sizes[p] <= |buf|
      && PackedFor(out + [e], vertexDist, base, sizes, displ + 1, buf[displ := e], p)
  {
    hide ForRank, Destination, Prefix;
    var p := Destination(vertexDist, base, e.col);
    ForRankPart(out + [e], rest, vertexDist, base, p);
    ForRankOne(out, e, vertexDist, base, p);
    PrefixMonotone(sizes, p, |sizes|);
    SlotFilled(buf, Prefix(sizes, p), displ, e);
  }

  lemma SlotFilled(buf: seq<Entry>, from: nat, displ: nat, e: Entry)
    requires from <= displ < |buf|
    ensures buf[displ := e][from..displ + 1] == buf[from..displ] + [e]
  {
  }

  lemma PackStep(out: seq<Entry>, rest: seq<Entry>, vertexDist: seq<nat>, base: nat, sizes: seq<nat>, displs: seq<nat>,
                 buf: seq<Entry>, e: Entry)
    requires Packed(out, vertexDist, base, sizes, displs, buf)
    requires SizesCount(out + [e] + rest, vertexDist, base, sizes) && Destination(vertexDist, base, e.col) < |sizes|
    ensures var p := Destination(vertexDist, base, e.col);
      && displs[p] < |buf|
      && Packed(out + [e], vertexDist, base, sizes, displs[p := displs[p] + 1], buf[displs[p] := e])
  {
    hide ForRank, PackedFor, SizesCount;
    var p := Destination(vertexDist, base, e.col);
    assert PackedFor(out, vertexDist, base, sizes, displs[p], buf, p);
    PackRoom(out, rest, vertexDist, base, sizes, displs[p], buf, e);
    var displs' := displs[p := displs[p] + 1];
    var buf' := buf[displs[p] := e];
    forall q | 0 <= q < |displs'|
      ensures PackedFor(out + [e], vertexDist, base, sizes, displs'[q], buf', q)
    {
      assert PackedFor(out, vertexDist, base, sizes, displs[q], buf, q);
      if q != p {
        PackKeeps(out, rest, vertexDist, base, sizes, displs[q], buf, e, q, displs[p]);
      }
    }
  }

  // ------------------------------------------------------------------------------------------
  // The passes themselves: a double loop over the local columns and their stored rows.
  // ------------------------------------------------------------------------------------------

  lemma {:induction false} SentForGrows(rule: Rule, base: nat, col: nat, rows: seq<nat>, j: nat)
    requires j <= |rows|
    ensures SentFor(rule, base, col, rows[..j]) <= SentFor(rule, base, col, rows)
    decreases |rows|
  {
    if j < |rows| {
      SentForGrows(rule, base, col, rows[..|rows| - 1], j);
      assert rows[..|rows| - 1][..j] == rows[..j];
    } else {
      assert rows[..j] == rows;
    }
  }

  lemma {:induction false} SentGrows(rule: Rule, base: nat, first: nat, cols: Columns, k: nat, m: nat)
    requires k <= m <= |cols|
    ensures Sent(rule, base, first, cols, k) <= Sent(rule, base, first, cols, m)
    decreases m
  {
    if k < m { SentGrows(rule, base, first, cols, k, m - 1); }
  }

  /** What a pass has sent when it stands before stored row j of local column l. */
  ghost function SentSoFar(rule: Rule, first: nat, s: Csc, l: nat, j: nat): seq<Entry>
    requires s.Valid() && l < |s.colptr| - 1 && j <= |s.Column(l)|
  {
    Sent(rule, s.base, first, s.Columns(), l) + SentFor(rule, s.base, first + l, s.Column(l)[..j])
  }

  ghost function SentByAll(rule: Rule, first: nat, s: Csc): seq<Entry>
    requires s.Valid()
  {
    Sent(rule, s.base, first, s.Columns(), |s.colptr| - 1)
  }

  lemma SentForOne(rule: Rule, base: nat, col: nat, rows: seq<nat>, j: nat)
    requires j < |rows| && rows[j] >= base
    ensures SentFor(rule, base, col, rows[..j + 1]) ==
            SentFor(rule, base, col, rows[..j]) + match rule(col, rows[j] - base) case None => [] case Some(e) => [e]
  {
    assert rows[..j + 1][..j] == rows[..j] && rows[..j + 1][j] == rows[j];
  }

  lemma SentColumn(rule: Rule, first: nat, s: Csc, l: nat)
    requires s.Valid() && l < |s.colptr| - 1
    ensures Sent(rule, s.base, first, s.Columns(), l + 1) ==
            Sent(rule, s.base, first, s.Columns(), l) + SentFor(rule, s.base, first + l, s.Column(l))
  {
  }

  /** One stored row further. */
  lemma SentNext(rule: Rule, first: nat, s: Csc, l: nat, j: nat)
    requires s.Valid() && l < |s.colptr| - 1 && j < |s.Column(l)| && s.Column(l)[j] >= s.base
    ensures var now := SentSoFar(rule, first, s, l, j); var next := SentSoFar(rule, first, s, l, j + 1);
      && next <= SentByAll(rule, first, s)
      && match rule(first + l, s.Column(l)[j] - s.base)
         case None => next == now
         case Some(e) => next == now + [e]
  {
    hide Sent, SentFor;
    SentForOne(rule, s.base, first + l, s.Column(l), j);
    SentForGrows(rule, s.base, first + l, s.Column(l), j + 1);
    SentColumn(rule, first, s, l);
    SentGrows(rule, s.base, first, s.Columns(), l + 1, |s.colptr| - 1);
  }

  lemma SentColumnEnds(rule: Rule, first: nat, s: Csc, l: nat)
    requires s.Valid() && l < |s.colptr| - 1
    ensures SentSoFar(rule, first, s, l, 0) == Sent(rule, s.base, first, s.Columns(), l)
    ensures SentSoFar(rule, first, s, l, |s.Column(l)|) == Sent(rule, s.base, first, s.Columns(), l + 1)
  {
    assert s.Column(l)[..|s.Column(l)|] == s.Column(l);
  }

  /** Rows are numbered from the base on. */
  ghost predicate RowsFromBase(s: Csc) {
    forall j :: 0 <= j < |s.rowind| ==> s.rowind[j] >= s.base
  }

  method CountPass(s: Csc, first: nat, rule: Rule, vertexDist: seq<nat>, np: nat) returns (sizes: array<nat>)
    requires s.Valid() && RowsFromBase(s) && |vertexDist| == np + 1
    requires Routed(SentByAll(rule, first, s), vertexDist, s.base, np)
    ensures fresh(sizes) && sizes.Length == np
    ensures SizesCount(SentByAll(rule, first, s), vertexDist, s.base, sizes[..])
  {
    hide SizesCount, Sent, SentFor, SentSoFar, SentByAll, Destination;
    sizes := new nat[np](_ => 0);
    NothingCounted(rule, first, s, vertexDist, sizes[..]);
    var locCol := 0;
    while locCol < |s.colptr| - 1
      invariant 0 <= locCol <= |s.colptr| - 1
      invariant SizesCount(Sent(rule, s.base, first, s.Columns(), locCol), vertexDist, s.base, sizes[..])
    {
      SentColumnEnds(rule, first, s, locCol);
      ghost var rows := s.Column(locCol);
      var rptr := s.colptr[locCol] - s.base;
      var colend := s.colptr[locCol + 1] - s.base;
      ghost var colbeg := rptr;
      while rptr < colend
        invariant colbeg <= rptr <= colend && colend - colbeg == |rows|
        invariant SizesCount(SentSoFar(rule, first, s, locCol, rptr - colbeg), vertexDist, s.base, sizes[..])
        decreases colend - rptr
      {
        assert rows[rptr - colbeg] == s.rowind[rptr];
        SentNext(rule, first, s, locCol, rptr - colbeg);
        match rule(first + locCol, s.rowind[rptr] - s.base) {
          case None =>
          case Some(e) =>
            ghost var out := SentSoFar(rule, first, s, locCol, rptr - colbeg);
            assert e == (out + [e])[|out|];
            var pdest := Destination(vertexDist, s.base, e.col);
            CountStep(out, vertexDist, s.base, sizes[..], e);
            ghost var before := sizes[..];
            sizes[pdest] := sizes[pdest] + 1;
            assert sizes[..] == before[pdest := before[pdest] + 1];
        }
        rptr := rptr + 1;
      }
      locCol := locCol + 1;
    }
    assert Sent(rule, s.base, first, s.Columns(), locCol) == SentByAll(rule, first, s) by {
      FinishSent(rule, first, s);
    }
  }

  lemma FinishSent(rule: Rule, first: nat, s: Csc)
    requires s.Valid()
    ensures Sent(rule, s.base, first, s.Columns(), |s.colptr| - 1) == SentByAll(rule, first, s)
  {
  }

  lemma NothingCounted(rule: Rule, first: nat, s: Csc, vertexDist: seq<nat>, sizes: seq<nat>)
    requires s.Valid() && |vertexDist| == |sizes| + 1 && forall p :: 0 <= p < |sizes| ==> sizes[p] == 0
    ensures SizesCount(Sent(rule, s.base, first, s.Columns(), 0), vertexDist, s.base, sizes)
  {
  }

  method PackPass(s: Csc, first: nat, rule: Rule, vertexDist: seq<nat>, sizes: seq<nat>) returns (buf: array<Entry>)
    requires s.Valid() && RowsFromBase(s) && |vertexDist| == |sizes| + 1
    requires Routed(SentByAll(rule, first, s), vertexDist, s.base, |sizes|)
    requires SizesCount(SentByAll(rule, first, s), vertexDist, s.base, sizes)
    ensures fresh(buf) && buf.Length == Prefix(sizes, |sizes|)
    ensures forall p :: 0 <= p < |sizes| ==>
      Segment(buf[..], sizes, p) == ForRank(SentByAll(rule, first, s), vertexDist, s.base, p)
  {
    hide SizesCount, Sent, SentFor, SentSoFar, SentByAll, Destination, Packed;
    var displs := PartialSums(sizes);
    buf := new Entry[Prefix(sizes, |sizes|)](_ => Entry(0, 0));
    NothingPacked(rule, first, s, vertexDist, sizes, displs[..], buf[..]);
    var locCol := 0;
    while locCol < |s.colptr| - 1
      invariant 0 <= locCol <= |s.colptr| - 1
      invariant Packed(Sent(rule, s.base, first, s.Columns(), locCol), vertexDist, s.base, sizes, displs[..], buf[..])
    {
      PackColumn(s, first, rule, vertexDist, sizes, displs, buf, locCol);
      locCol := locCol + 1;
    }
    FinishSent(rule, first, s);
    FinishPacked(SentByAll(rule, first, s), vertexDist, s.base, sizes, displs[..], buf[..]);
  }

  /** The entries of one column. */
  method PackColumn(s: Csc, first: nat, rule: Rule, vertexDist: seq<nat>, sizes: seq<nat>,
                    displs: array<nat>, buf: array<Entry>, locCol: nat)
    requires s.Valid() && RowsFromBase(s) && |vertexDist| == |sizes| + 1 && locCol < |s.colptr| - 1
    requires Routed(SentByAll(rule, first, s), vertexDist, s.base, |sizes|)
    requires SizesCount(SentByAll(rule, first, s), vertexDist, s.base, sizes)
    requires Packed(Sent(rule, s.base, first, s.Columns(), locCol), vertexDist, s.base, sizes, displs[..], buf[..])
    modifies displs, buf
    ensures Packed(Sent(rule, s.base, first, s.Columns(), locCol + 1), vertexDist, s.base, sizes, displs[..], buf[..])
  {
    hide SizesCount, Sent, SentFor, SentSoFar, SentByAll, Destination, Packed, Routed;
    SentColumnEnds(rule, first, s, locCol);
    ghost var rows := s.Column(locCol);
    var rptr := s.colptr[locCol] - s.base;
    var colend := s.colptr[locCol + 1] - s.base;
    ghost var colbeg := rptr;
    while rptr < colend
      invariant colbeg <= rptr <= colend && colend - colbeg == |rows|
      invariant Packed(SentSoFar(rule, first, s, locCol, rptr - colbeg), vertexDist, s.base, sizes, displs[..], buf[..])
      decreases colend - rptr
    {
      assert rows[rptr - colbeg] == s.rowind[rptr];
      SentNext(rule, first, s, locCol, rptr - colbeg);
      match rule(first + locCol, s.rowind[rptr] - s.base) {
        case None =>
        case Some(e) =>
          PackOne(rule, first, s, vertexDist, sizes, displs, buf, SentSoFar(rule, first, s, locCol, rptr - colbeg), e);
      }
      rptr := rptr + 1;
    }
  }

  method PackOne(rule: Rule, ghost first: nat, s: Csc, vertexDist: seq<nat>, sizes: seq<nat>,
                 displs: array<nat>, buf: array<Entry>, ghost out: seq<Entry>, e: Entry)
    requires s.Valid() && |vertexDist| == |sizes| + 1
    requires Routed(SentByAll(rule, first, s), vertexDist, s.base, |sizes|)
    requires SizesCount(SentByAll(rule, first, s), vertexDist, s.base, sizes)
    requires Packed(out, vertexDist, s.base, sizes, displs[..], buf[..])
    requires out + [e] <= SentByAll(rule, first, s)
    modifies displs, buf
    ensures Packed(out + [e], vertexDist, s.base, sizes, displs[..], buf[..])
  {
    hide SizesCount, SentByAll, Destination, PackedFor;
    ghost var all := SentByAll(rule, first, s);
    ghost var rest := all[|out| + 1..];
    assert all == out + [e] + rest;
    assert e == all[|out|];
    var pdest := Destination(vertexDist, s.base, e.col);
    PackStep(out, rest, vertexDist, s.base, sizes, displs[..], buf[..], e);
    ghost var d, b := displs[..], buf[..];
    var at := displs[pdest];
    buf[at] := e;
    displs[pdest] := at + 1;
    assert buf[..] == b[at := e];
    assert displs[..] == d[pdest := d[pdest] + 1];
  }

  method PartialSums(sizes: seq<nat>) returns (displs: array<nat>)
    ensures fresh(displs) && displs.Length == |sizes|
    ensures forall p :: 0 <= p < |sizes| ==> displs[p] == Prefix(sizes, p)
  {
    displs := new nat[|sizes|];
    var p: nat, sum: nat := 0, 0;
    while p < |sizes|
      invariant p <= |sizes| && sum == Prefix(sizes, p)
      invariant forall q :: 0 <= q < p ==> displs[q] == Prefix(sizes, q)
    {
      displs[p] := sum;
      sum := sum + sizes[p];
      p := p + 1;
    }
  }

  /** The part of a packed buffer that belongs to destination p. */
  function Segment(buf: seq<Entry>, sizes: seq<nat>, p: nat): seq<Entry>
    requires p < |sizes| && |buf| == Prefix(sizes, |sizes|)
  {
    PrefixMonotone(sizes, p, |sizes|);
    buf[Prefix(sizes, p)..Prefix(sizes, p) + sizes[p]]
  }

  lemma NothingPacked(rule: Rule, first: nat, s: Csc, vertexDist: seq<nat>, sizes: seq<nat>, displs: seq<nat>,
                      buf: seq<Entry>)
    requires s.Valid() && |vertexDist| == |sizes| + 1 && |displs| == |sizes| && |buf| == Prefix(sizes, |sizes|)
    requires forall p :: 0 <= p < |sizes| ==> displs[p] == Prefix(sizes, p)
    ensures Packed(Sent(rule, s.base, first, s.Columns(), 0), vertexDist, s.base, sizes, displs, buf)
  {
    forall p | 0 <= p < |sizes|
      ensures PackedFor([], vertexDist, s.base, sizes, displs[p], buf, p)
    {
      PrefixMonotone(sizes, p, |sizes|);
    }
  }

  lemma FinishPacked(all: seq<Entry>, vertexDist: seq<nat>, base: nat, sizes: seq<nat>, displs: seq<nat>,
                     buf: seq<Entry>)
    requires |vertexDist| == |sizes| + 1 && SizesCount(all, vertexDist, base, sizes)
    requires Packed(all, vertexDist, base, sizes, displs, buf)
    ensures forall p :: 0 <= p < |sizes| ==> Segment(buf, sizes, p) == ForRank(all, vertexDist, base, p)
  {
    forall p | 0 <= p < |sizes|
      ensures Segment(buf, sizes, p) == ForRank(all, vertexDist, base, p)
    {
      assert PackedFor(all, vertexDist, base, sizes, displs[p], buf, p);
    }
  }

  // ------------------------------------------------------------------------------------------
  // Alltoallv: rank p receives its segment of every buffer, in the order of the senders.
  // ------------------------------------------------------------------------------------------

  /** What rank p receives from the first k senders. */
  function Received(sent: seq<seq<Entry>>, vertexDist: seq<nat>, base: nat, p: nat, k: nat): seq<Entry>
    requires |vertexDist| >= 1 && k <= |sent|
  {
    if k == 0 then [] else
      Received(sent, vertexDist, base, p, k - 1) + ForRank(sent[k - 1], vertexDist, base, p)
  }

  /** Rank p receives its part of everything sent, in the global order of the columns. */
  lemma {:induction false} ReceivedIsPart(sent: seq<seq<Entry>>, vertexDist: seq<nat>, base: nat, p: nat, k: nat)
    requires |vertexDist| >= 1 && k <= |sent|
    ensures Received(sent, vertexDist, base, p, k) == ForRank(Concatenated(sent, k), vertexDist, base, p)
  {
    if k > 0 {
      ReceivedIsPart(sent, vertexDist, base, p, k - 1);
      ForRankAppend(Concatenated(sent, k - 1), sent[k - 1], vertexDist, base, p);
    }
  }
}
