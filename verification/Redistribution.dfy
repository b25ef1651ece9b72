/** RedistributeSupernodal on one rank: what it sends, and how it merges what it receives into its own
    arrays. Numbering starts at 1, columns are counted from 0. */
module Redistribution {
  import opened Sequences
  import opened SparseGraphs
  import opened Slices
  import opened Expansion

  // ---- Messages ----

  /** Where one message lies in the receive buffer. */
  lemma {:induction false} PartAt(msgs: seq<seq<nat>>, p: nat, k: nat)
    requires p < k <= |msgs|
    ensures |Concatenated(msgs, p)| + |msgs[p]| <= |Concatenated(msgs, k)|
    ensures Concatenated(msgs, k)[|Concatenated(msgs, p)|..|Concatenated(msgs, p)| + |msgs[p]|] == msgs[p]
    decreases k
  {
    if p < k - 1 {
      PartAt(msgs, p, k - 1);
    }
  }

  /** Column pointers of the columns a .. b - 1 with the one after, shifted by any amount; nothing when
      there is no column. */
  ghost predicate IsPointerMessage(msg: seq<nat>, g: Csc, a: nat, b: nat) {
    a <= b < |g.colptr| &&
    if a == b then msg == [] else |msg| == b - a + 1 && RunsAlong(msg, g, a)
  }

  ghost predicate RunsAlong(ptr: seq<nat>, g: Csc, a: nat)
    requires 1 <= |ptr| && a + |ptr| <= |g.colptr|
  {
    forall i :: 0 <= i < |ptr| ==> ptr[i] + g.colptr[a] == ptr[0] + g.colptr[a + i]
  }

  /** What one rank knows when it merges: its columns are to be from .. to - 1, and the blocks of the
      old split, cut to that range, are where they come from. */
  datatype Target = Target(split: seq<nat>, from: nat, to: nat, me: nat) {

    ghost predicate Valid(g: Csc) {
      && g.Valid() && g.base == 1 && SplitsFromZero(split, |g.colptr| - 1)
      && from <= to < |g.colptr| && me + 1 < |split|
    }

    function Start(p: nat): (c: nat)
      requires from <= to && p < |split|
      ensures from <= c <= to
    {
      Cut(split, from, to, p)
    }

    ghost predicate PointersArrive(g: Csc, msgs: seq<seq<nat>>)
      requires Valid(g)
    {
      |msgs| + 1 == |split| && msgs[me] == [] && forall p :: 0 <= p < |msgs| && p != me ==> PointerArrives(g, msgs, p)
    }

    ghost predicate PointerArrives(g: Csc, msgs: seq<seq<nat>>, p: nat)
      requires Valid(g) && p < |msgs| < |split|
    {
      IsPointerMessage(msgs[p], g, Start(p), Start(p + 1))
    }

    /** Position i of the new column pointers is final. */
    ghost predicate Final(g: Csc, ptr: seq<nat>, i: nat)
      requires Valid(g) && i < |ptr| && i <= to - from
    {
      ptr[i] + g.colptr[from] == 1 + g.colptr[from + i]
    }
  }

  // ---- Vector operations ----

  method FromSeq(s: seq<nat>) returns (a: array<nat>)
    ensures fresh(a) && a[..] == s
  {
    a := new nat[|s|];
    for i := 0 to |s|
      invariant a[..i] == s[..i]
    {
      a[i] := s[i];
    }
    assert a[..] == s;
  }

  /** std::copy to the front. */
  method ShiftLeft(a: array<nat>, dist: nat, count: nat)
    requires dist + count <= a.Length
    modifies a
    ensures forall i :: 0 <= i < count ==> a[i] == old(a[dist + i])
  {
    for k := 0 to count
      invariant forall i :: 0 <= i < k ==> a[i] == old(a[dist + i])
      invariant forall i :: k <= i < a.Length ==> a[i] == old(a[i])
    {
      a[k] := a[dist + k];
    }
  }

  method Resize(a: array<nat>, n: nat) returns (b: array<nat>)
    ensures fresh(b) && b.Length == n
    ensures forall i :: 0 <= i < n && i < a.Length ==> b[i] == a[i]
  {
    b := new nat[n];
    for i := 0 to n
      invariant forall k :: 0 <= k < i && k < a.Length ==> b[k] == a[k]
    {
      b[i] := if i < a.Length then a[i] else 0;
    }
  }

  /** The old content without what comes before the part that stays, if anything stays. */
  method DropFront(s: seq<nat>, drop: nat, keep: nat) returns (a: array<nat>)
    requires drop + keep <= |s|
    ensures fresh(a) && a.Length == |s|
    ensures forall i :: 0 <= i < keep ==> a[i] == s[drop + i]
  {
    a := FromSeq(s);
    if drop > 0 && keep > 0 {
      ShiftLeft(a, drop, |s| - drop);
    }
  }

  /** Resizes to n and moves the first len entries up by gap. */
  method OpenGap(a: array<nat>, len: nat, gap: nat, n: nat) returns (b: array<nat>)
    requires len <= a.Length && gap + len <= n
    ensures fresh(b) && b.Length == n
    ensures forall i :: gap <= i < gap + len ==> b[i] == a[i - gap]
  {
    b := Resize(a, n);
    if gap > 0 {
      CopyBackward(b, 0, len, gap + len);
    }
  }

  // ---- Merging the column pointers ----

  /** How many columns arrive, and how many of them from ranks before this one. */
  method CountArriving(t: Target, ghost g: Csc, msgs: seq<seq<nat>>) returns (before: nat, all: nat)
    requires t.Valid(g) && t.PointersArrive(g, msgs)
    ensures before == t.Start(t.me) - t.from
    ensures t.Start(t.me) <= t.Start(t.me + 1)
    ensures all == t.to - t.from - (t.Start(t.me + 1) - t.Start(t.me))
  {
    hide IsPointerMessage, Csc.Valid;
    before, all := 0, 0;
    CutEnds(t.split, |g.colptr| - 1, t.from, t.to);
    hide Cut;
    for p := 0 to |msgs|
      invariant before == t.Start(if p < t.me then p else t.me) - t.from
      invariant all == t.Start(p) - t.from - if p > t.me then t.Start(t.me + 1) - t.Start(t.me) else 0
    {
      MessageSize(t, g, msgs, p);
      if |msgs[p]| > 0 {
        if p < t.me {
          before := before + |msgs[p]| - 1;
        }
        all := all + |msgs[p]| - 1;
      }
    }
  }

  lemma MessageSize(t: Target, g: Csc, msgs: seq<seq<nat>>, p: nat)
    requires t.Valid(g) && t.PointersArrive(g, msgs) && p < |msgs|
    ensures t.Start(p) <= t.Start(p + 1)
    ensures p != t.me ==> t.Start(p + 1) - t.Start(p) == if |msgs[p]| > 0 then |msgs[p]| - 1 else 0
    ensures p == t.me ==> |msgs[p]| == 0
  {
    assert p != t.me ==> t.PointerArrives(g, msgs, p);
  }

  /** Writes one received piece, last column first, and returns the pointer that follows it. */
  method PlaceOne(b: array<nat>, buf: seq<nat>, bufPos: nat, numCols: nat, pos: nat, offset: nat, t: Target,
                  ghost g: Csc, ghost c: nat)
    returns (next: nat)
    requires t.Valid(g) && numCols >= 1 && bufPos + numCols < |buf| && t.from <= c && c + numCols <= t.to
    requires RunsAlong(buf[bufPos..bufPos + numCols + 1], g, c)
    requires pos == c - t.from && b.Length == t.to - t.from + 1
    requires offset + g.colptr[t.from] == 1 + g.colptr[c]
    modifies b
    ensures forall i :: pos <= i < pos + numCols ==> t.Final(g, b[..], i)
    ensures forall i :: 0 <= i < b.Length && !(pos <= i < pos + numCols) ==> b[i] == old(b[i])
    ensures next + g.colptr[t.from] == 1 + g.colptr[c + numCols]
  {
    ghost var ptr := buf[bufPos..bufPos + numCols + 1];
    assert forall i :: 0 <= i <= numCols ==> ptr[i] == buf[bufPos + i];
    var col := numCols;
    while col > 0
      invariant 0 <= col <= numCols
      invariant forall i :: pos + col <= i < pos + numCols ==> b[i] + buf[bufPos] == buf[bufPos + (i - pos)] + offset
      invariant forall i :: 0 <= i < b.Length && !(pos + col <= i < pos + numCols) ==> b[i] == old(b[i])
    {
      col := col - 1;
      assert ptr[col] + g.colptr[c] == ptr[0] + g.colptr[c + col] && g.colptr[c] <= g.colptr[c + col];
      b[pos + col] := buf[bufPos + col] - buf[bufPos] + offset;
    }
    forall i | pos <= i < pos + numCols ensures t.Final(g, b[..], i) {
      assert ptr[i - pos] + g.colptr[c] == ptr[0] + g.colptr[c + (i - pos)];
    }
    assert ptr[numCols] + g.colptr[c] == ptr[0] + g.colptr[c + numCols] && g.colptr[c] <= g.colptr[c + numCols];
    next := buf[bufPos + numCols] - buf[bufPos] + offset;
  }

  /** Writes the pieces received from the ranks p0 .. p1 - 1. */
  method PlacePieces(b: array<nat>, msgs: seq<seq<nat>>, p0: nat, p1: nat, pos: nat, bufPos: nat, offset: nat,
                     t: Target, ghost g: Csc)
    returns (pos': nat, bufPos': nat, offset': nat)
    requires t.Valid(g) && t.PointersArrive(g, msgs) && p0 <= p1 <= |msgs| && (p1 <= t.me || t.me < p0)
    requires b.Length == t.to - t.from + 1
    requires pos == t.Start(p0) - t.from && bufPos == |Concatenated(msgs, p0)|
    requires offset + g.colptr[t.from] == 1 + g.colptr[t.Start(p0)]
    modifies b
    ensures t.Start(p0) <= t.Start(p1) && pos' == t.Start(p1) - t.from && bufPos' == |Concatenated(msgs, p1)|
    ensures offset' + g.colptr[t.from] == 1 + g.colptr[t.Start(p1)]
    ensures forall i :: pos <= i < pos' ==> t.Final(g, b[..], i)
    ensures forall i :: 0 <= i < b.Length && !(pos <= i < pos') ==> b[i] == old(b[i])
  {
    hide Csc.Valid, Cut, RunsAlong, t.Final;
    pos', bufPos', offset' := pos, bufPos, offset;
    var recvBuf := Concatenated(msgs, |msgs|);
    for p := p0 to p1
      invariant t.Start(p0) <= t.Start(p) && pos' == t.Start(p) - t.from && bufPos' == |Concatenated(msgs, p)|
      invariant offset' + g.colptr[t.from] == 1 + g.colptr[t.Start(p)]
      invariant forall i :: pos <= i < pos' ==> t.Final(g, b[..], i)
      invariant forall i :: 0 <= i < b.Length && !(pos <= i < pos') ==> b[i] == old(b[i])
    {
      MessageSize(t, g, msgs, p);
      assert t.PointerArrives(g, msgs, p);
      if |msgs[p]| > 0 {
        PartAt(msgs, p, |msgs|);
        var numCols := |msgs[p]| - 1;
        ghost var before := b[..];
        offset' := PlaceOne(b, recvBuf, bufPos', numCols, pos', offset', t, g, t.Start(p));
        forall i | pos <= i < pos' ensures t.Final(g, b[..], i) {
          FinalKept(t, g, before, b[..], i);
        }
        bufPos' := bufPos' + numCols + 1;
        pos' := pos' + numCols;
      }
    }
  }

  lemma FinalKept(t: Target, g: Csc, was: seq<nat>, now: seq<nat>, i: nat)
    requires t.Valid(g) && i < |was| == |now| && i <= t.to - t.from
    requires t.Final(g, was, i) && was[i] == now[i]
    ensures t.Final(g, now, i)
  {
  }

  /** Moves the pointers of the rank's own columns to where the pieces before them end, last one first. */
  method OffsetOwn(b: array<nat>, pos: nat, kept: nat, offset: nat)
    requires pos + kept < b.Length && forall i :: pos <= i <= pos + kept ==> b[pos] <= b[i]
    modifies b
    ensures forall i :: pos <= i <= pos + kept ==> b[i] + old(b[pos]) == old(b[i]) + offset
    ensures forall i :: 0 <= i < b.Length && !(pos <= i <= pos + kept) ==> b[i] == old(b[i])
  {
    ghost var was := b[..];
    var col := kept + 1;
    while col > 0
      invariant 0 <= col <= kept + 1
      invariant forall i :: pos + col <= i <= pos + kept ==> b[i] + was[pos] == was[i] + offset
      invariant forall i :: 0 <= i < b.Length && !(pos + col <= i <= pos + kept) ==> b[i] == was[i]
    {
      b[pos + col - 1] := b[pos + col - 1] - b[pos] + offset;
      col := col - 1;
    }
  }

  /** The old pointers, without those of the columns sent away, with room for what arrives: the kept ones
      sit where they belong, still counted from where they were. */
  method MakeRoom(colptr: seq<nat>, colsBefore: nat, kept: nat, before: nat, all: nat) returns (b: array<nat>)
    requires colsBefore + kept < |colptr| && before <= all
    ensures fresh(b) && b.Length == kept + all + 1
    ensures kept > 0 ==> b[before..before + kept + 1] == colptr[colsBefore..colsBefore + kept + 1]
  {
    var a := DropFront(colptr, colsBefore, if kept > 0 then kept + 1 else 0);
    b := OpenGap(a, kept + 1, before, kept + all + 1);
    assert kept > 0 ==> forall i :: before <= i <= before + kept ==> b[i] == colptr[colsBefore + (i - before)];
  }

  /** The pointers of the kept columns run along those of the whole graph. */
  ghost predicate OwnInPlace(g: Csc, t: Target, ptr: seq<nat>, kept: nat)
    requires t.Valid(g)
  {
    var a := t.Start(t.me);
    a + kept <= t.to && a - t.from + kept < |ptr| &&
    (kept > 0 ==> RunsAlong(ptr[a - t.from..a - t.from + kept + 1], g, a))
  }

  lemma OwnAscends(g: Csc, t: Target, ptr: seq<nat>, kept: nat)
    requires t.Valid(g) && OwnInPlace(g, t, ptr, kept)
    ensures var pos := t.Start(t.me) - t.from; forall i :: pos <= i <= pos + kept ==> ptr[pos] <= ptr[i]
  {
    var a := t.Start(t.me);
    var pos := a - t.from;
    forall i | pos <= i <= pos + kept ensures ptr[pos] <= ptr[i] {
      if kept > 0 {
        var own := ptr[pos..pos + kept + 1];
        assert RunsAlong(own, g, a);
        assert own[i - pos] + g.colptr[a] == own[0] + g.colptr[a + (i - pos)];
        assert g.colptr[a] <= g.colptr[a + (i - pos)];
      }
    }
  }

  lemma OwnFinal(g: Csc, t: Target, was: seq<nat>, now: seq<nat>, kept: nat, offset: nat)
    requires t.Valid(g) && OwnInPlace(g, t, was, kept) && |now| == |was|
    requires offset + g.colptr[t.from] == 1 + g.colptr[t.Start(t.me)]
    requires var pos := t.Start(t.me) - t.from;
      forall i :: pos <= i <= pos + kept ==> now[i] + was[pos] == was[i] + offset
    ensures var pos := t.Start(t.me) - t.from; forall i :: pos <= i <= pos + kept ==> t.Final(g, now, i)
  {
    var a := t.Start(t.me);
    var pos := a - t.from;
    forall i | pos <= i <= pos + kept ensures t.Final(g, now, i) {
      if kept > 0 {
        var own := was[pos..pos + kept + 1];
        assert RunsAlong(own, g, a);
        assert own[i - pos] + g.colptr[a] == own[0] + g.colptr[a + (i - pos)];
      }
    }
  }

  /** The pointers of the columns that stay. */
  ghost predicate KeepsOwn(colptr: seq<nat>, colsBefore: nat, t: Target, g: Csc)
    requires t.Valid(g) && t.Start(t.me) <= t.Start(t.me + 1)
    requires colsBefore + (t.Start(t.me + 1) - t.Start(t.me)) < |colptr|
  {
    var a, kept := t.Start(t.me), t.Start(t.me + 1) - t.Start(t.me);
    kept > 0 ==> RunsAlong(colptr[colsBefore..colsBefore + kept + 1], g, a)
  }

  /** The new column pointers, all but the last, which is set when the rows are known. */
  method MergePointers(colptr: seq<nat>, colsBefore: nat, colsAfter: nat, msgs: seq<seq<nat>>, t: Target, ghost g: Csc)
    returns (b: array<nat>)
    requires t.Valid(g) && t.PointersArrive(g, msgs)
    requires t.Start(t.me) <= t.Start(t.me + 1)
    requires colsBefore + (t.Start(t.me + 1) - t.Start(t.me)) + colsAfter + 1 == |colptr|
    requires KeepsOwn(colptr, colsBefore, t, g)
    ensures fresh(b) && b.Length == t.to - t.from + 1
    ensures forall i :: 0 <= i < t.to - t.from ==> t.Final(g, b[..], i)
  {
    hide Csc.Valid, RunsAlong, IsPointerMessage, Cut, t.Final, KeepsOwn, t.PointersArrive;
    TargetEnds(t, g);
    ghost var kept := t.Start(t.me + 1) - t.Start(t.me);
    var colptrPos, ptrBufPos, offset;
    b, colptrPos, ptrBufPos, offset := MergeFront(colptr, colsBefore, colsAfter, msgs, t, g);
    ghost var merged := b[..];
    colptrPos, ptrBufPos, offset := PlacePieces(b, msgs, t.me + 1, |msgs|, colptrPos, ptrBufPos, offset, t, g);
    forall i | 0 <= i < t.to - t.from ensures t.Final(g, b[..], i) {
      if i < t.Start(t.me + 1) - t.from {
        FinalKept(t, g, merged, b[..], i);
      }
    }
  }

  /** The pointers of what arrived from earlier ranks and of what stays. */
  method MergeFront(colptr: seq<nat>, colsBefore: nat, colsAfter: nat, msgs: seq<seq<nat>>, t: Target, ghost g: Csc)
    returns (b: array<nat>, colptrPos: nat, ptrBufPos: nat, offset: nat)
    requires t.Valid(g) && t.PointersArrive(g, msgs)
    requires t.Start(t.me) <= t.Start(t.me + 1)
    requires colsBefore + (t.Start(t.me + 1) - t.Start(t.me)) + colsAfter + 1 == |colptr|
    requires KeepsOwn(colptr, colsBefore, t, g)
    ensures |msgs| + 1 == |t.split|
    ensures fresh(b) && b.Length == t.to - t.from + 1
    ensures colptrPos == t.Start(t.me + 1) - t.from && ptrBufPos == |Concatenated(msgs, t.me + 1)|
    ensures offset + g.colptr[t.from] == 1 + g.colptr[t.Start(t.me + 1)]
    ensures forall i :: 0 <= i < colptrPos ==> t.Final(g, b[..], i)
  {
    hide Csc.Valid, RunsAlong, IsPointerMessage, Cut, t.Final;
    TargetEnds(t, g);
    var before, all := CountArriving(t, g, msgs);
    var nLocal := |colptr| - 1;
    var kept := nLocal - colsBefore - colsAfter;
    b := MakeRoom(colptr, colsBefore, kept, before, all);
    ghost var room := b[..];
    colptrPos, ptrBufPos, offset := PlacePieces(b, msgs, 0, t.me, 0, 0, 1, t, g);
    SameAbove(room, b[..], before, kept);
    offset := PlaceOwn(b, colptrPos, kept, offset, t, g);
    colptrPos := colptrPos + kept;
    assert Concatenated(msgs, t.me + 1) == Concatenated(msgs, t.me);
  }

  lemma SameAbove(was: seq<nat>, now: seq<nat>, from: nat, kept: nat)
    requires |was| == |now| && from + kept < |was|
    requires forall i :: 0 <= i < |now| && !(0 <= i < from) ==> now[i] == was[i]
    ensures now[from..from + kept + 1] == was[from..from + kept + 1]
  {
  }

  lemma TargetEnds(t: Target, g: Csc)
    requires t.Valid(g)
    ensures t.Start(0) == t.from && t.Start(|t.split| - 1) == t.to
  {
    CutEnds(t.split, |g.colptr| - 1, t.from, t.to);
  }

  /** The rank's own pointers, after those of the ranks before it. */
  method PlaceOwn(b: array<nat>, pos: nat, kept: nat, offset: nat, t: Target, ghost g: Csc) returns (next: nat)
    requires t.Valid(g) && OwnInPlace(g, t, b[..], kept) && b.Length == t.to - t.from + 1
    requires pos == t.Start(t.me) - t.from && offset + g.colptr[t.from] == 1 + g.colptr[t.Start(t.me)]
    requires forall i :: 0 <= i < pos ==> t.Final(g, b[..], i)
    modifies b
    ensures forall i :: 0 <= i <= pos + kept ==> t.Final(g, b[..], i)
    ensures next + g.colptr[t.from] == 1 + g.colptr[t.Start(t.me) + kept]
  {
    ghost var placed := b[..];
    OwnAscends(g, t, placed, kept);
    OffsetOwn(b, pos, kept, offset);
    OwnFinal(g, t, placed, b[..], kept, offset);
    forall i | 0 <= i <= pos + kept ensures t.Final(g, b[..], i) {
      if i < pos {
        FinalKept(t, g, placed, b[..], i);
      }
    }
    assert t.Final(g, b[..], pos) && t.Final(g, b[..], pos + kept);
    next := b[pos + kept] - b[pos] + offset;
  }

  // ---- Merging the rows ----

  /** The messages of the ranks p0 .. p1 - 1. */
  function Between(msgs: seq<seq<nat>>, p0: nat, p1: nat): (r: seq<nat>)
    requires p0 <= p1 <= |msgs|
    decreases p1
  {
    if p0 == p1 then [] else Between(msgs, p0, p1 - 1) + msgs[p1 - 1]
  }

  lemma {:induction false} CatSplits(msgs: seq<seq<nat>>, p0: nat, p1: nat)
    requires p0 <= p1 <= |msgs|
    ensures Concatenated(msgs, p1) == Concatenated(msgs, p0) + Between(msgs, p0, p1)
    decreases p1
  {
    if p0 < p1 {
      CatSplits(msgs, p0, p1 - 1);
    }
  }

  method CountRows(msgs: seq<seq<nat>>, me: nat) returns (before: nat, all: nat)
    requires me < |msgs|
    ensures before == |Concatenated(msgs, me)| && all == |Concatenated(msgs, |msgs|)|
  {
    before, all := 0, 0;
    for p := 0 to |msgs|
      invariant before == |Concatenated(msgs, if p < me then p else me)| && all == |Concatenated(msgs, p)|
    {
      if |msgs[p]| > 0 {
        if p < me {
          before := before + |msgs[p]|;
        }
        all := all + |msgs[p]|;
      }
    }
  }

  /** Copies the messages of the ranks p0 .. p1 - 1 one after the other. */
  method PlaceRows(rows: array<nat>, msgs: seq<seq<nat>>, p0: nat, p1: nat, pos: nat) returns (pos': nat)
    requires p0 <= p1 <= |msgs| && pos + |Between(msgs, p0, p1)| <= rows.Length
    modifies rows
    ensures pos' == pos + |Between(msgs, p0, p1)|
    ensures rows[pos..pos'] == Between(msgs, p0, p1)
    ensures forall i :: 0 <= i < rows.Length && !(pos <= i < pos') ==> rows[i] == old(rows[i])
  {
    pos' := pos;
    ghost var end := pos + |Between(msgs, p0, p1)|;
    for p := p0 to p1
      invariant pos' == pos + |Between(msgs, p0, p)| <= rows.Length
      invariant rows[pos..pos'] == Between(msgs, p0, p)
      invariant forall i :: 0 <= i < pos || end <= i < rows.Length ==> rows[i] == old(rows[i])
    {
      BetweenGrows(msgs, p0, p + 1, p1);
      ghost var done := Between(msgs, p0, p);
      if |msgs[p]| > 0 {
        CopyIn(rows, pos', msgs[p]);
        assert rows[pos..pos' + |msgs[p]|] == done + msgs[p];
        pos' := pos' + |msgs[p]|;
      } else {
        assert done + msgs[p] == done;
      }
    }
  }

  lemma {:induction false} BetweenGrows(msgs: seq<seq<nat>>, p0: nat, p: nat, p1: nat)
    requires p0 <= p <= p1 <= |msgs|
    ensures |Between(msgs, p0, p)| <= |Between(msgs, p0, p1)|
    decreases p1
  {
    if p < p1 {
      BetweenGrows(msgs, p0, p, p1 - 1);
    }
  }

  method CopyIn(rows: array<nat>, pos: nat, msg: seq<nat>)
    requires pos + |msg| <= rows.Length
    modifies rows
    ensures rows[pos..pos + |msg|] == msg
    ensures forall i :: 0 <= i < rows.Length && !(pos <= i < pos + |msg|) ==> rows[i] == old(rows[i])
  {
    for k := 0 to |msg|
      invariant forall i :: 0 <= i < k ==> rows[pos + i] == msg[i]
      invariant forall i :: 0 <= i < rows.Length && !(pos <= i < pos + k) ==> rows[i] == old(rows[i])
    {
      rows[pos + k] := msg[k];
    }
  }

  /** The old rows without those sent away, moved behind those that arrive from earlier ranks. */
  method MakeRowRoom(rowind: seq<nat>, rowsBefore: nat, size: nat, before: nat, all: nat) returns (rows: array<nat>)
    requires rowsBefore + size <= |rowind| && before <= all
    ensures fresh(rows) && rows.Length == size + all
    ensures rows[before..before + size] == rowind[rowsBefore..rowsBefore + size]
  {
    var a := DropFront(rowind, rowsBefore, size);
    rows := OpenGap(a, size, before, size + all);
    assert forall i :: before <= i < before + size ==> rows[i] == rowind[rowsBefore + (i - before)];
  }

  /** What arrived from earlier ranks, what stays, what arrived from later ranks. */
  method MergeRows(rowind: seq<nat>, rowsBefore: nat, rowsAfter: nat, msgs: seq<seq<nat>>, me: nat)
    returns (rows: array<nat>)
    requires me < |msgs| && msgs[me] == [] && rowsBefore + rowsAfter <= |rowind|
    ensures fresh(rows)
    ensures rows[..] == Concatenated(msgs, me) + rowind[rowsBefore..|rowind| - rowsAfter] +
      Between(msgs, me + 1, |msgs|)
  {
    var before, all := CountRows(msgs, me);
    var size := |rowind| - rowsBefore - rowsAfter;
    CatSplits(msgs, 0, me);
    CatSplits(msgs, me + 1, |msgs|);
    assert Concatenated(msgs, me + 1) == Concatenated(msgs, me);
    rows := MakeRowRoom(rowind, rowsBefore, size, before, all);
    ghost var own := rowind[rowsBefore..|rowind| - rowsAfter];
    ghost var room := rows[..];
    var pos := PlaceRows(rows, msgs, 0, me, 0);
    ghost var front := rows[..];
    pos := pos + size;
    var end := PlaceRows(rows, msgs, me + 1, |msgs|, pos);
    ThreeParts(room, front, rows[..], Concatenated(msgs, me), own, Between(msgs, me + 1, |msgs|));
  }

  /** Room, filled in front and then behind what was in the middle. */
  lemma ThreeParts(room: seq<nat>, front: seq<nat>, rows: seq<nat>, a: seq<nat>, own: seq<nat>, c: seq<nat>)
    requires |room| == |front| == |rows| == |a| + |own| + |c|
    requires room[|a|..|a| + |own|] == own && front[..|a|] == a && rows[|a| + |own|..] == c
    requires forall i :: |a| <= i < |room| ==> front[i] == room[i]
    requires forall i :: 0 <= i < |a| + |own| ==> rows[i] == front[i]
    ensures rows == a + own + c
  {
    assert rows[..|a|] == front[..|a|];
    assert rows[|a|..|a| + |own|] == room[|a|..|a| + |own|];
    assert rows == rows[..|a|] + rows[|a|..|a| + |own|] + rows[|a| + |own|..];
  }
}
