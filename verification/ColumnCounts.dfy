/** getLColRowCount: how many nonzeros every column and every row of the factor has, without computing
    the factor. Arrays have length n + 1 with vertex v at index v. */
module ColumnCounts {
  import opened Graphs
  import opened EliminationTrees
  import opened SparseGraphs
  import opened Reorderings
  import opened ETrees
  import opened Fill
  import opened SubtreeIntervals
  import opened LeastAncestors
  import opened RowSubtrees
  import opened RowCounts
  import opened ReadingColumns
  import opened FactorCounts

  // ---- Which entries have been read ----

  /** All entries below the diagonal in the columns before low, and the first k rows of column low. */
  ghost predicate IsSeen(P: Columns, seen: Entries, low: nat, k: nat) {
    forall e :: e in seen <==> 0 < e.0 < e.1 && WasRead(P, low, k, e)
  }

  ghost predicate WasRead(P: Columns, low: nat, k: nat, e: (nat, nat)) {
    || (e.0 < low && Stored(P, e.0, e.1))
    || (e.0 == low && 0 < low <= |P| && exists s :: 0 <= s < k && s < |Rows(P, low)| && Rows(P, low)[s] == e.1)
  }

  lemma OneMoreRead(P: Columns, seen: Entries, low: nat, k: nat)
    requires IsSeen(P, seen, low, k) && 0 < low <= |P| && k < |Rows(P, low)|
    ensures var r := Rows(P, low)[k];
      IsSeen(P, if r > low then seen + {(low, r)} else seen, low, k + 1)
  {
    var rows := Rows(P, low);
    var r := rows[k];
    var seen' := if r > low then seen + {(low, r)} else seen;
    forall e: (nat, nat) ensures e in seen' <==> 0 < e.0 < e.1 && WasRead(P, low, k + 1, e) {
      assert e in seen <==> 0 < e.0 < e.1 && WasRead(P, low, k, e);
      if WasRead(P, low, k + 1, e) && e.0 == low {
        var s :| 0 <= s < k + 1 && s < |rows| && rows[s] == e.1;
        assert s < k ==> WasRead(P, low, k, e);
      }
      if WasRead(P, low, k, e) && e.0 == low {
        var s :| 0 <= s < k && s < |rows| && rows[s] == e.1;
        assert 0 <= s < k + 1;
      }
      if e == (low, r) {
        assert rows[k] == e.1;
      }
    }
  }

  lemma ColumnSeen(P: Columns, seen: Entries, low: nat)
    requires 0 < low <= |P| && IsSeen(P, seen, low, |Rows(P, low)|)
    ensures IsSeen(P, seen, low + 1, 0)
  {
    forall e: (nat, nat) ensures WasRead(P, low, |Rows(P, low)|, e) <==> WasRead(P, low + 1, 0, e) {
      if e.0 == low && Stored(P, e.0, e.1) {
        var s :| 0 <= s < |Rows(P, low)| && Rows(P, low)[s] == e.1;
      }
    }
  }

  // ---- What the tree says about the entries ----

  /** Entries lie on tree paths, and a vertex without children has its parent among its rows. */
  ghost predicate FollowsTree(P: Columns, t: PostTree) {
    && |t.q| == |t.f| == |P| + 1
    && (forall c: nat, r: nat :: Stored(P, c, r) && 0 < c < r ==> r < |t.f| && Under(t.f, r, c))
    && (forall x :: 0 < x < |t.f| && t.f[x] == x && t.q[x] != 0 ==> x < t.q[x] && Stored(P, x, t.q[x]))
  }

  lemma TreeIsFollowed(P: Columns, t: PostTree)
    requires Expanded(P) && |t.q| == |t.f| == |P| + 1 && TreeWithFirsts(EdgesOf(P), t.q, t.f)
    ensures FollowsTree(P, t)
  {
    var E := EdgesOf(P);
    EtreeEdgesFollowTree(E, t.q);
    forall c: nat, r: nat | Stored(P, c, r) && 0 < c < r ensures r < |t.f| && Under(t.f, r, c) {
      assert (r, c) in E;
      assert Ancestor(t.q, r, c) && AncestorOrSelf(t.q, r, c);
      assert SubtreeIs(t.q, t.f, r);
    }
    forall x | 0 < x < |t.f| && t.f[x] == x && t.q[x] != 0 ensures x < t.q[x] && Stored(P, x, t.q[x]) {
      ParentIsFirstNonzero(E, t.q, x);
      RowStructure(E, t.q, t.q[x], x);
      var k :| 0 < k <= x && (t.q[x], k) in E && AncestorOrSelf(t.q, x, k);
      assert SubtreeIs(t.q, t.f, x) && Under(t.f, x, k);
      assert Stored(P, t.q[x], x);
    }
  }

  lemma AllAreRead(P: Columns, seen: Entries)
    requires Expanded(P) && IsSeen(P, seen, |P| + 1, 0)
    ensures AllRead(EdgesOf(P), |P|, seen)
  {
    forall e: (nat, nat) ensures e in seen <==> (e.1, e.0) in EdgesOf(P) && 0 < e.0 < e.1 <= |P| {
      assert e in seen <==> 0 < e.0 < e.1 && WasRead(P, |P| + 1, 0, e);
      assert Stored(P, e.0, e.1) <==> Stored(P, e.1, e.0);
    }
  }

  // ---- The arrays before the first column ----

  ghost function CountersOf(links: array<nat>, prvlf: array<nat>, prvnbr: array<nat>, weight: array<int>,
                            rc: array<int>): Counters
    reads links, prvlf, prvnbr, weight, rc
  {
    Counters(links[..], prvlf[..], prvnbr[..], weight[..], rc[..])
  }

  /** The first loop, from the last vertex down, so that a parent's level is known before its children's. */
  method Clear(q: seq<nat>, links: array<nat>, prvlf: array<nat>, prvnbr: array<nat>, weight: array<int>,
               rc: array<int>,
               cc: array<int>, level: array<int>, fdesc: array<nat>, nchild: array<nat>)
    requires Forest(q) && links.Length == prvlf.Length == prvnbr.Length == fdesc.Length == nchild.Length == |q|
    requires weight.Length == rc.Length == cc.Length == level.Length == |q|
    requires links != prvlf && links != prvnbr && links != fdesc && links != nchild && prvlf != prvnbr && prvlf != fdesc
    requires prvlf != nchild && prvnbr != fdesc && prvnbr != nchild && fdesc != nchild
    requires weight != rc && weight != cc && weight != level && rc != cc && rc != level && cc != level
    modifies links, prvlf, prvnbr, weight, rc, cc, level, fdesc, nchild
    ensures forall k :: 0 < k < |q| ==> rc[k] == 1 && cc[k] == 0 && links[k] == k && prvlf[k] == 0 && prvnbr[k] == 0
    ensures forall k :: 0 < k < |q| ==> weight[k] == 1 && fdesc[k] == k && nchild[k] == 0
    ensures Levels(q, level[..]) && nchild[0] == 0 && fdesc[0] == 0
  {
    level[0] := 0;
    var k := |q|;
    while k > 1
      invariant 1 <= k <= |q| && level[0] == 0
      invariant forall v :: k <= v < |q| ==>
        rc[v] == 1 && cc[v] == 0 && links[v] == v && prvlf[v] == 0 && prvnbr[v] == 0
      invariant forall v :: k <= v < |q| ==> weight[v] == 1 && fdesc[v] == v && nchild[v] == 0
      invariant forall v :: k <= v < |q| ==> level[v] == level[q[v]] + 1
    {
      k := k - 1;
      rc[k], cc[k], links[k], prvlf[k], prvnbr[k] := 1, 0, k, 0, 0;
      level[k] := level[q[k]] + 1;
      weight[k], fdesc[k], nchild[k] := 1, k, 0;
    }
    nchild[0], fdesc[0] := 0, 0;
  }

  ghost predicate IsChildCount(q: seq<nat>, nchild: seq<nat>) {
    |nchild| == |q| && forall v :: 0 < v < |q| ==> nchild[v] == Children(q, |q|, v)
  }

  lemma ChildCountAt(q: seq<nat>, nchild: seq<nat>, v: nat)
    requires IsChildCount(q, nchild) && 0 < v < |q|
    ensures v < |nchild| && nchild[v] == Children(q, |q|, v)
  {
  }

  /** The second loop: vertices tell their parents. */
  method TellParents(q: seq<nat>, weight: array<int>, fdesc: array<nat>, nchild: array<nat>)
    requires Forest(q) && Postordered(q) && weight.Length == fdesc.Length == nchild.Length == |q| && fdesc != nchild
    requires forall k :: 0 < k < |q| ==> weight[k] == 1 && fdesc[k] == k && nchild[k] == 0
    requires nchild[0] == 0 && fdesc[0] == 0
    modifies weight, fdesc, nchild
    ensures Intervals(q, fdesc[..]) && LeafOnes(fdesc[..], weight[..])
    ensures IsChildCount(q, nchild[..])
  {
    var n := |q| - 1;
    var k := 1;
    while k < n
      invariant k == 1 || k <= n
      invariant FirstSoFar(q, fdesc[..], k) && fdesc[0] == 0
      invariant forall v :: 0 <= v < |q| && k <= |q| ==> nchild[v] == Children(q, k, v)
      invariant forall v :: 0 < v < |q| && k <= |q| ==> weight[v] == if Children(q, k, v) >= 1 then 0 else 1
    {
      HandUp(q, fdesc[..], k);
      var parent := q[k];
      weight[parent] := 0;
      nchild[parent] := nchild[parent] + 1;
      var ifdesc := fdesc[k];
      if ifdesc < fdesc[parent] {
        fdesc[parent] := ifdesc;
      }
      k := k + 1;
    }
    LastVertexIsRoot(q, fdesc[..], k);
    FirstGivesIntervals(q, fdesc[..]);
    IntervalsNest(q, fdesc[..]);
    WeightsAreLeafOnes(q, fdesc[..], weight[..]);
  }

  lemma LastVertexIsRoot(q: seq<nat>, f: seq<nat>, k: nat)
    requires Forest(q) && FirstSoFar(q, f, k) && |q| - 1 <= k && k >= 1 && (k == 1 || k <= |q| - 1)
    ensures FirstSoFar(q, f, |q|)
    ensures forall v :: 0 < v < |q| && k <= |q| ==> Children(q, |q|, v) == Children(q, k, v)
  {
  }

  lemma WeightsAreLeafOnes(q: seq<nat>, f: seq<nat>, w: seq<int>)
    requires Nested(q, f) && |w| == |q|
    requires forall v :: 0 < v < |q| ==> w[v] == if Children(q, |q|, v) >= 1 then 0 else 1
    ensures LeafOnes(f, w)
  {
    forall v | 0 < v < |q| ensures w[v] == if f[v] == v then 1 else 0 {
      if Children(q, |q|, v) == 0 {
        NoChildIsAlone(q, f, v);
      } else {
        ChildrenFound(q, |q|, v);
        var c :| 0 < c < |q| && q[c] == v;
      }
    }
  }

  // ---- Reading ----

  /** One entry below the diagonal. */
  method ReadEntry(t: PostTree, links: array<nat>, prvlf: array<nat>, prvnbr: array<nat>, weight: array<int>,
                   rc: array<int>,
                   lownbr: nat, hinbr: nat, lflag: bool, ghost seen: Entries, ghost xsup: nat, ghost firsts: set<nat>)
    returns (lflag': bool)
    requires links != prvlf && links != prvnbr && prvlf != prvnbr && weight != rc
    requires Reading(t, seen, CountersOf(links, prvlf, prvnbr, weight, rc), lownbr, xsup, firsts, lflag)
    requires lownbr < hinbr < |t.f| && Under(t.f, hinbr, lownbr)
    modifies links, prvlf, prvnbr, weight, rc
    ensures Reading(t, seen + {(lownbr, hinbr)}, CountersOf(links, prvlf, prvnbr, weight, rc), lownbr, xsup, firsts,
                    lflag')
  {
    hide *;
    ghost var c := CountersOf(links, prvlf, prvnbr, weight, rc);
    CountersAre(c, links, prvlf, prvnbr, weight, rc);
    ReadingParts(t, seen, c, lownbr, xsup, firsts, lflag);
    lflag' := lflag;
    if t.f[lownbr] > prvnbr[hinbr] {
      weight[lownbr] := weight[lownbr] + 1;
      var pleaf := prvlf[hinbr];
      RowIsRead(t, seen, c, lownbr, xsup, firsts, lflag, hinbr);
      ghost var u := 0;
      if pleaf == 0 {
        rc[hinbr] := rc[hinbr] + t.level[lownbr] - t.level[hinbr];
      } else {
        u := LeafHasAncestor(t, seen, c, lownbr, xsup, firsts, lflag, hinbr);
        var lca := FindLca(links, pleaf, t.q, t.f, lownbr, xsup, firsts, u);
        IsInside(t.f, lownbr, pleaf, u);
        rc[hinbr] := rc[hinbr] + t.level[lownbr] - t.level[lca];
        weight[lca] := weight[lca] - 1;
      }
      prvlf[hinbr] := lownbr;
      lflag' := true;
      prvnbr[hinbr] := lownbr;
      ghost var c' := CountersOf(links, prvlf, prvnbr, weight, rc);
      CountersAre(c', links, prvlf, prvnbr, weight, rc);
      LeafWeightsAre(c.weight, lownbr, c.prvnbr[hinbr], u);
      LeafIsRead(t, seen, c, lownbr, xsup, firsts, lflag, hinbr, u, c');
    } else {
      prvnbr[hinbr] := lownbr;
      ghost var c' := CountersOf(links, prvlf, prvnbr, weight, rc);
      CountersAre(c', links, prvlf, prvnbr, weight, rc);
      NoLeafIsRead(t, seen, c, lownbr, xsup, firsts, lflag, hinbr);
    }
  }

  lemma CountersAre(c: Counters, links: array<nat>, prvlf: array<nat>, prvnbr: array<nat>, weight: array<int>,
                    rc: array<int>)
    requires c == CountersOf(links, prvlf, prvnbr, weight, rc)
    ensures c == Counters(links[..], prvlf[..], prvnbr[..], weight[..], rc[..])
  {
  }

  lemma IsInside(f: seq<nat>, low: nat, x: nat, u: nat)
    requires IsLeast(f, low, x, u)
    ensures u < |f|
  {
  }

  lemma LeafWeightsAre(w: seq<int>, low: nat, prv: nat, u: nat)
    requires low < |w| && (prv != 0 ==> u < |w|)
    ensures LeafWeights(w, low, prv, u) ==
      var w1 := w[low := w[low] + 1]; if prv == 0 then w1 else w1[u := w1[u] - 1]
  {
  }

  lemma RowIsRead(t: PostTree, seen: Entries, c: Counters, low: nat, xsup: nat, firsts: set<nat>, lflag: bool, i: nat)
    requires Reading(t, seen, c, low, xsup, firsts, lflag) && 0 < i < |t.f|
    ensures i < |c.prvnbr| && i < |c.prvlf| && (c.prvnbr[i] == 0 <==> c.prvlf[i] == 0)
  {
    assert RowFits(t.f, seen, c, low, firsts, lflag, i);
  }

  /** The column that the ordering puts at position lownbr. */
  method ReadColumn(t: PostTree, s: Csc, perm: seq<nat>, invp: seq<nat>,
                    links: array<nat>, prvlf: array<nat>, prvnbr: array<nat>, weight: array<int>, rc: array<int>,
                    lownbr: nat, ghost P: Columns, ghost before: Entries, ghost xsup: nat, ghost firsts: set<nat>)
    returns (lflag: bool, ghost seen: Entries)
    requires links != prvlf && links != prvnbr && prvlf != prvnbr && weight != rc
    requires Ordered(s, perm, invp) && P == OrderedColumns(s, perm, invp) && FollowsTree(P, t)
    requires Reading(t, before, CountersOf(links, prvlf, prvnbr, weight, rc), lownbr, xsup, firsts, false)
    requires IsSeen(P, before, lownbr, 0) && 0 < lownbr < |perm|
    modifies links, prvlf, prvnbr, weight, rc
    ensures Reading(t, seen, CountersOf(links, prvlf, prvnbr, weight, rc), lownbr, xsup, firsts, lflag)
    ensures IsSeen(P, seen, lownbr + 1, 0)
  {
    hide *;
    ColumnPlaced(s, perm, invp, lownbr);
    lflag, seen := false, before;
    var oldnbr := perm[lownbr];
    var jstrt := s.colptr[oldnbr - 1];
    var jstop := s.colptr[oldnbr] - 1;
    var j := jstrt;
    while j <= jstop
      invariant jstrt <= j <= jstop + 1
      invariant Reading(t, seen, CountersOf(links, prvlf, prvnbr, weight, rc), lownbr, xsup, firsts, lflag)
      invariant IsSeen(P, seen, lownbr, j - jstrt)
    {
      EntryRead(s, perm, invp, lownbr, j);
      OneMoreRead(P, seen, lownbr, j - jstrt);
      var hinbr := invp[s.rowind[j - 1]];
      if hinbr > lownbr {
        EntryFollows(P, t, lownbr, j - jstrt);
        lflag := ReadEntry(t, links, prvlf, prvnbr, weight, rc, lownbr, hinbr, lflag, seen, xsup, firsts);
        seen := seen + {(lownbr, hinbr)};
      }
      j := j + 1;
    }
    ColumnSeen(P, seen, lownbr);
  }

  lemma ColumnPlaced(s: Csc, perm: seq<nat>, invp: seq<nat>, low: nat)
    requires Ordered(s, perm, invp) && 0 < low < |perm|
    ensures 0 < perm[low] < |s.colptr| && 1 <= s.colptr[perm[low] - 1] <= s.colptr[perm[low]] <= |s.rowind| + 1
    ensures low <= |OrderedColumns(s, perm, invp)|
    ensures |Rows(OrderedColumns(s, perm, invp), low)| == s.colptr[perm[low]] - s.colptr[perm[low] - 1]
  {
    OrderedRows(s, perm, invp, low);
    PermutedSize(s, perm, invp);
  }

  lemma PermutedSize(s: Csc, perm: seq<nat>, invp: seq<nat>)
    requires Ordered(s, perm, invp)
    ensures |OrderedColumns(s, perm, invp)| + 1 == |perm| == |invp| == |s.colptr|
  {
  }

  lemma EntryFollows(P: Columns, t: PostTree, low: nat, k: nat)
    requires FollowsTree(P, t) && 0 < low <= |P| && k < |Rows(P, low)| && low < Rows(P, low)[k]
    ensures var r := Rows(P, low)[k]; r < |t.f| && Under(t.f, r, low)
  {
    assert Stored(P, low, Rows(P, low)[k]);
  }

  method OneVertex(t: PostTree, s: Csc, perm: seq<nat>, invp: seq<nat>, nchild: seq<nat>,
                    links: array<nat>, prvlf: array<nat>, prvnbr: array<nat>, weight: array<int>, rc: array<int>,
                    lownbr: nat, ghost P: Columns, ghost before: Entries, xsup: nat, ghost firsts: set<nat>)
    returns (xsup': nat, ghost firsts': set<nat>, ghost seen: Entries)
    requires links != prvlf && links != prvnbr && prvlf != prvnbr && weight != rc && IsChildCount(t.q, nchild)
    requires Ordered(s, perm, invp) && P == OrderedColumns(s, perm, invp) && FollowsTree(P, t)
    requires ColumnsDone(t, before, CountersOf(links, prvlf, prvnbr, weight, rc), lownbr, xsup, firsts)
    requires IsSeen(P, before, lownbr, 0) && 0 < lownbr < |perm| == |t.f|
    modifies links, prvlf, prvnbr, weight, rc
    ensures ColumnsDone(t, seen, CountersOf(links, prvlf, prvnbr, weight, rc), lownbr + 1, xsup', firsts')
    ensures IsSeen(P, seen, lownbr + 1, 0)
  {
    hide *;
    var lflag;
    BeginsColumn(t, before, CountersOf(links, prvlf, prvnbr, weight, rc), lownbr, xsup, firsts);
    lflag, seen := ReadColumn(t, s, perm, invp, links, prvlf, prvnbr, weight, rc, lownbr, P, before, xsup, firsts);
    xsup', firsts' := EndColumn(t, nchild, links, prvlf, prvnbr, weight, rc, lownbr, lflag, P, seen, xsup, firsts);
  }

  /** All columns, each followed by the links and the weight of its vertex. */
  method ReadColumns(t: PostTree, s: Csc, perm: seq<nat>, invp: seq<nat>, nchild: seq<nat>,
                     links: array<nat>, prvlf: array<nat>, prvnbr: array<nat>, weight: array<int>, rc: array<int>,
                     ghost P: Columns)
    returns (ghost seen: Entries, xsup: nat, ghost firsts: set<nat>)
    requires links != prvlf && links != prvnbr && prvlf != prvnbr && weight != rc && IsChildCount(t.q, nchild)
    requires Ordered(s, perm, invp) && P == OrderedColumns(s, perm, invp) && FollowsTree(P, t) && |perm| == |t.f| >= 1
    requires ColumnsDone(t, {}, CountersOf(links, prvlf, prvnbr, weight, rc), 1, 1, {})
    modifies links, prvlf, prvnbr, weight, rc
    ensures IsSeen(P, seen, |perm|, 0)
    ensures ColumnsDone(t, seen, CountersOf(links, prvlf, prvnbr, weight, rc), |perm|, xsup, firsts)
  {
    hide *;
    NothingSeen(P);
    seen, xsup, firsts := {}, 1, {};
    var lownbr := 1;
    while lownbr < |perm|
      invariant 1 <= lownbr <= |perm| && IsSeen(P, seen, lownbr, 0)
      invariant ColumnsDone(t, seen, CountersOf(links, prvlf, prvnbr, weight, rc), lownbr, xsup, firsts)
    {
      xsup, firsts, seen :=
        OneVertex(t, s, perm, invp, nchild, links, prvlf, prvnbr, weight, rc, lownbr, P, seen, xsup, firsts);
      lownbr := lownbr + 1;
    }
  }

  /** What follows the entries of a column. */
  method EndColumn(t: PostTree, nchild: seq<nat>, links: array<nat>, prvlf: array<nat>, prvnbr: array<nat>,
                   weight: array<int>, rc: array<int>, lownbr: nat, lflag: bool,
                   ghost P: Columns, ghost seen: Entries, xsup: nat, ghost firsts: set<nat>)
    returns (xsup': nat, ghost firsts': set<nat>)
    requires links != prvlf && links != prvnbr && prvlf != prvnbr && weight != rc
    requires IsChildCount(t.q, nchild)
    requires Reading(t, seen, CountersOf(links, prvlf, prvnbr, weight, rc), lownbr, xsup, firsts, lflag)
    requires FollowsTree(P, t) && IsSeen(P, seen, lownbr + 1, 0)
    modifies links, weight
    ensures ColumnsDone(t, seen, CountersOf(links, prvlf, prvnbr, weight, rc), lownbr + 1, xsup', firsts')
  {
    hide *;
    ghost var c := CountersOf(links, prvlf, prvnbr, weight, rc);
    CountersAre(c, links, prvlf, prvnbr, weight, rc);
    ReadingParts(t, seen, c, lownbr, xsup, firsts, lflag);
    LonelyIsRoot(P, t, seen, lownbr);
    ChildCountAt(t.q, nchild, lownbr);
    var starts := lflag || nchild[lownbr] >= 2;
    ColumnIsDone(t, seen, c, lownbr, xsup, firsts, lflag, starts, if starts then lownbr else xsup);
    var parent := t.q[lownbr];
    weight[parent] := weight[parent] - 1;
    xsup' := xsup;
    if lflag || nchild[lownbr] >= 2 {
      xsup' := lownbr;
    }
    links[xsup'] := parent;
    firsts' := firsts + {xsup'};
    CountersAre(CountersOf(links, prvlf, prvnbr, weight, rc), links, prvlf, prvnbr, weight, rc);
  }

  /** A vertex without children and without rows below it has no parent. */
  lemma LonelyIsRoot(P: Columns, t: PostTree, seen: Entries, low: nat)
    requires FollowsTree(P, t) && IsSeen(P, seen, low + 1, 0) && 0 < low < |t.f|
    ensures |t.q| == |t.f|
    ensures t.f[low] == low && (forall e :: e in seen ==> e.0 < low) ==> t.q[low] == 0
  {
    if t.f[low] == low && t.q[low] != 0 {
      var e := (low, t.q[low]);
      assert WasRead(P, low + 1, 0, e);
      assert e in seen;
    }
  }

  lemma NothingSeen(P: Columns)
    ensures IsSeen(P, {}, 1, 0)
  {
  }

  lemma DoneParts(t: PostTree, seen: Entries, c: Counters, low: nat, xsup: nat, firsts: set<nat>)
    requires ColumnsDone(t, seen, c, low, xsup, firsts)
    ensures low <= |t.q| && WeightsFit(t.f, c.weight, seen, low) && RowCountsFit(t.f, c.rc, seen)
    ensures |c.weight| == |c.rc| == |t.f| == |t.q|
  {
  }

  // ---- Handing up ----

  /** A vertex below k has its sum; another one has what its children below k handed up. */
  ghost predicate SumFits(t: PostTree, w: seq<int>, cc: seq<int>, k: nat, v: nat)
    requires t.Valid() && |cc| == |w| == |t.q| && 0 < v < |t.q| && k <= |t.q|
  {
    cc[v] == if v < k then SubtreeSum(w, t.f, v) else Handed(t.q, t.f, w, k, v)
  }

  ghost predicate SummedTo(t: PostTree, w: seq<int>, cc: seq<int>, k: nat) {
    && t.Valid() && |cc| == |w| == |t.q| && 0 < k <= |t.q|
    && forall v :: 0 < v < |t.q| ==> SumFits(t, w, cc, k, v)
  }

  /** The sums after vertex k. */
  function SumStep(q: seq<nat>, w: seq<int>, cc: seq<int>, k: nat): (r: seq<int>)
    requires k < |q| == |w| == |cc| && q[k] < |q|
    ensures |r| == |cc|
  {
    var temp, p := cc[k] + w[k], q[k];
    var summed := cc[k := temp];
    if p != 0 then summed[p := summed[p] + temp] else summed
  }

  lemma SumNextAt(t: PostTree, w: seq<int>, cc: seq<int>, k: nat, v: nat)
    requires t.Valid() && |cc| == |w| == |t.q| && 0 < v < |t.q| && 0 < k < |t.q| && t.q[k] < |t.q|
    requires SumFits(t, w, cc, k, v) && SumFits(t, w, cc, k, k)
    ensures SumFits(t, w, SumStep(t.q, w, cc, k), k + 1, v)
  {
    NestedParts(t);
    AllHanded(t.q, t.f, w, k);
    HandedNext(t.q, t.f, w, k, v);
    hide SubtreeSum, Handed, PostTree.Valid, Nested;
  }

  lemma SumNext(t: PostTree, w: seq<int>, cc: seq<int>, k: nat)
    requires SummedTo(t, w, cc, k) && k < |t.q|
    ensures t.q[k] < |t.q| && SummedTo(t, w, SumStep(t.q, w, cc, k), k + 1)
  {
    NestedParts(t);
    hide SumFits, SumStep, PostTree.Valid, Nested;
    var after, next := SumStep(t.q, w, cc, k), k + 1;
    forall v | 0 < v < |t.q| ensures SumFits(t, w, after, next, v) {
      SumNextAt(t, w, cc, k, v);
    }
  }

  lemma SumStepIs(q: seq<nat>, w: seq<int>, cc: seq<int>, k: nat)
    requires k < |q| == |w| == |cc| && q[k] < |q|
    ensures var temp, p := cc[k] + w[k], q[k];
      SumStep(q, w, cc, k) == if p != 0 then cc[k := temp][p := cc[k := temp][p] + temp] else cc[k := temp]
  {
  }

  lemma HandedNext(q: seq<nat>, f: seq<nat>, w: seq<int>, k: nat, v: nat)
    requires 0 < k < |q| == |f| == |w| && forall c :: 0 < c < |f| ==> f[c] <= c
    ensures Handed(q, f, w, k + 1, v) == Handed(q, f, w, k, v) + if q[k] == v then SubtreeSum(w, f, k) else 0
  {
  }

  lemma SumsStart(t: PostTree, w: seq<int>, cc: seq<int>)
    requires t.Valid() && |cc| == |w| == |t.q| && forall k :: 0 < k < |t.q| ==> cc[k] == 0
    ensures SummedTo(t, w, cc, 1)
  {
    var k := 1;
    forall v | 0 < v < |t.q| ensures SumFits(t, w, cc, k, v) {
    }
  }

  lemma SumsEnd(t: PostTree, w: seq<int>, cc: seq<int>)
    requires SummedTo(t, w, cc, |t.q|)
    ensures forall k :: 0 < k < |t.q| ==> t.f[k] <= k && cc[k] == SubtreeSum(w, t.f, k)
  {
    forall k | 0 < k < |t.q| ensures t.f[k] <= k && cc[k] == SubtreeSum(w, t.f, k) {
      assert SumFits(t, w, cc, |t.q|, k);
    }
  }

  /** The last loop: every vertex hands its sum to its parent. */
  method HandUpAll(t: PostTree, weight: array<int>, cc: array<int>)
    requires t.Valid() && weight != cc && weight.Length == cc.Length == |t.q|
    requires forall k :: 0 < k < |t.q| ==> cc[k] == 0
    modifies cc
    ensures forall k :: 0 < k < |t.q| ==> t.f[k] <= k && cc[k] == SubtreeSum(weight[..], t.f, k)
  {
    hide *;
    NestedParts(t);
    SumsStart(t, weight[..], cc[..]);
    var k := 1;
    while k < |t.q|
      invariant 1 <= k <= |t.q| && SummedTo(t, weight[..], cc[..], k) && weight[..] == old(weight[..])
    {
      SumNext(t, weight[..], cc[..], k);
      SumStepIs(t.q, weight[..], cc[..], k);
      var temp := cc[k] + weight[k];
      cc[k] := temp;
      var parent := t.q[k];
      if parent != 0 {
        cc[parent] := cc[parent] + temp;
      }
      k := k + 1;
    }
    SumsEnd(t, weight[..], cc[..]);
  }

  lemma NestedParts(t: PostTree)
    requires t.Valid()
    ensures Nested(t.q, t.f) && |t.f| == |t.q| >= 1
    ensures forall c :: 0 < c < |t.f| ==> 0 < t.f[c] <= c && (t.q[c] == 0 || c < t.q[c] < |t.q|)
  {
  }

  // ---- The whole method ----

  /** The graph in the order of the labels, and the postordered tree of it. */
  ghost predicate TreeOfOrdered(s: Csc, perm: seq<nat>, invp: seq<nat>, q: seq<nat>) {
    && Ordered(s, perm, invp) && |q| == |perm| && Forest(q) && Postordered(q)
    && Expanded(OrderedColumns(s, perm, invp)) && IsEtree(EdgesOf(OrderedColumns(s, perm, invp)), q)
  }

  /** On a postordered tree: the numbers of nonzeros of the columns and of the rows of the factor, with
      the diagonal. */
  method CountNonzeros(s: Csc, perm: seq<nat>, invp: seq<nat>, q: seq<nat>) returns (cc: array<int>, rc: array<int>)
    requires TreeOfOrdered(s, perm, invp, q)
    ensures cc.Length == rc.Length == |q|
    ensures var E := EdgesOf(OrderedColumns(s, perm, invp)); forall j :: 0 < j < |q| ==>
      cc[j] == |FactorColumn(E, |q| - 1, j)| && rc[j] == |FactorRow(E, j)|
  {
    hide *;
    Facts(s, perm, invp, q);
    ghost var P := OrderedColumns(s, perm, invp);
    var t, nchild, links, prvlf, prvnbr, weight;
    t, nchild, links, prvlf, prvnbr, weight, rc, cc := Begin(q);
    CountersAre(CountersOf(links, prvlf, prvnbr, weight, rc), links, prvlf, prvnbr, weight, rc);
    TreeSize(t);
    CountersStart(P, t, CountersOf(links, prvlf, prvnbr, weight, rc));
    ghost var seen, xsup, firsts := ReadColumns(t, s, perm, invp, nchild, links, prvlf, prvnbr, weight, rc, P);
    CountersAre(CountersOf(links, prvlf, prvnbr, weight, rc), links, prvlf, prvnbr, weight, rc);
    DoneParts(t, seen, CountersOf(links, prvlf, prvnbr, weight, rc), |perm|, xsup, firsts);
    HandUpAll(t, weight, cc);
    AllAreRead(P, seen);
    CountersEnd(EdgesOf(P), t, seen, weight[..], cc[..], rc[..]);
  }

  /** All arrays, up to the first column. */
  method Begin(q: seq<nat>)
    returns (t: PostTree, nchildren: seq<nat>, links: array<nat>, prvlf: array<nat>, prvnbr: array<nat>,
             weight: array<int>, rc: array<int>, cc: array<int>)
    requires Forest(q) && Postordered(q)
    ensures fresh(links) && fresh(prvlf) && fresh(prvnbr) && fresh(weight) && fresh(rc) && fresh(cc)
    ensures links != prvlf && links != prvnbr && prvlf != prvnbr && weight != rc && weight != cc && rc != cc
    ensures t.q == q && Intervals(q, t.f) && Levels(q, t.level) && IsChildCount(q, nchildren)
    ensures Cleared(q, CountersOf(links, prvlf, prvnbr, weight, rc)) && LeafOnes(t.f, weight[..])
    ensures cc.Length == rc.Length == |q| && forall k :: 0 < k < |q| ==> cc[k] == 0
  {
    hide Forest, Postordered, Levels, Intervals, LeafOnes, IsChildCount;
    var size := |q|;
    cc, rc := new int[size], new int[size];
    var level := new int[size];
    weight := new int[size];
    var fdesc, nchild := new nat[size], new nat[size];
    links, prvlf, prvnbr := new nat[size], new nat[size], new nat[size];
    Clear(q, links, prvlf, prvnbr, weight, rc, cc, level, fdesc, nchild);
    TellParents(q, weight, fdesc, nchild);
    t, nchildren := PostTree(q, fdesc[..], level[..]), nchild[..];
  }

  /** The counters before the first column, the weights apart. */
  ghost predicate Cleared(q: seq<nat>, c: Counters) {
    && |c.links| == |c.prvlf| == |c.prvnbr| == |c.rc| == |q|
    && forall k :: 0 < k < |q| ==> c.rc[k] == 1 && c.links[k] == k && c.prvlf[k] == 0 && c.prvnbr[k] == 0
  }

  lemma Facts(s: Csc, perm: seq<nat>, invp: seq<nat>, q: seq<nat>)
    requires TreeOfOrdered(s, perm, invp, q)
    ensures Ordered(s, perm, invp) && |q| == |perm| >= 1 && Forest(q) && Postordered(q)
    ensures var P := OrderedColumns(s, perm, invp);
      |P| + 1 == |q| && RowsWithin(P, |P|) && Expanded(P) && IsEtree(EdgesOf(P), q)
  {
  }

  lemma TreeSize(t: PostTree)
    requires Forest(t.q) && Intervals(t.q, t.f)
    ensures |t.f| == |t.q|
  {
  }

  lemma CountersStart(P: Columns, t: PostTree, c: Counters)
    requires |t.q| == |P| + 1 && Forest(t.q) && Expanded(P) && IsEtree(EdgesOf(P), t.q)
    requires Intervals(t.q, t.f) && Levels(t.q, t.level) && LeafOnes(t.f, c.weight)
    requires Cleared(t.q, c)
    ensures t.Valid() && FollowsTree(P, t) && TreeWithFirsts(EdgesOf(P), t.q, t.f)
    ensures ColumnsDone(t, {}, c, 1, 1, {})
  {
    SymmetricPattern(P);
    IntervalsNest(t.q, t.f);
    TreeIsFollowed(P, t);
    LinksStart(t.q, t.f, c.links);
    StartFits(t.q, t.f, c.weight, c.rc);
    NoRows(t, c);
    hide LinksFit, WeightsFit, RowCountsFit, FollowsTree, Expanded, Intervals, RowsFit;
  }

  lemma NoRows(t: PostTree, c: Counters)
    requires |c.prvlf| == |c.prvnbr| == |t.f| && forall k :: 0 < k < |t.f| ==> c.prvlf[k] == 0 && c.prvnbr[k] == 0
    ensures EntriesInTree(t.f, {}, 0) && RowsFit(t.f, {}, c, 1, {}, false)
  {
  }

  lemma SymmetricPattern(P: Columns)
    requires Expanded(P)
    ensures Symmetric(EdgesOf(P))
  {
  }

  lemma CountersEnd(E: Edges, t: PostTree, seen: Entries, w: seq<int>, cc: seq<int>, rc: seq<int>)
    requires 0 < |t.q| && TreeWithFirsts(E, t.q, t.f) && AllRead(E, |t.q| - 1, seen)
    requires |t.f| == |w| == |cc| == |rc| == |t.q| && WeightsFit(t.f, w, seen, |t.q|) && RowCountsFit(t.f, rc, seen)
    requires forall k :: 0 < k < |t.q| ==> t.f[k] <= k && cc[k] == SubtreeSum(w, t.f, k)
    ensures forall j :: 0 < j < |t.q| ==> cc[j] == |FactorColumn(E, |t.q| - 1, j)| && rc[j] == |FactorRow(E, j)|
  {
    hide *;
    forall j | 0 < j < |t.q| ensures cc[j] == |FactorColumn(E, |t.q| - 1, j)| && rc[j] == |FactorRow(E, j)| {
      SumIsColumnCount(E, t.q, t.f, w, seen, j);
      RowCountIsNonzeros(E, t.q, t.f, rc, seen, j);
    }
  }
}
