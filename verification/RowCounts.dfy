/** One column of the counting: every entry below its diagonal, and the links once it is done. */
module RowCounts {
  import opened SubtreeIntervals
  import opened LeastAncestors
  import opened RowSubtrees

  /** The postordered tree: parents, first vertices of the subtrees, levels. */
  datatype PostTree = PostTree(q: seq<nat>, f: seq<nat>, level: seq<int>) {
    ghost predicate Valid() { Nested(q, f) && Levels(q, level) }
  }

  /** The arrays that change from entry to entry. */
  datatype Counters = Counters(links: seq<nat>, prvlf: seq<nat>, prvnbr: seq<nat>, weight: seq<int>, rc: seq<int>)

  // ---- What the weights and the row counts say ----

  ghost predicate WeightFits(f: seq<nat>, w: seq<int>, seen: Entries, low: nat, j: nat)
    requires 0 < j < |f| == |w| && f[j] <= j
  {
    SubtreeSum(w, f, j) == |RowsAt(f, seen, j)| + |LeavesFrom(f, f[j], j + 1)| - Below(f, j, low)
  }

  ghost predicate WeightsFit(f: seq<nat>, w: seq<int>, seen: Entries, low: nat) {
    |f| == |w| && forall j :: 0 < j < |f| && f[j] <= j ==> WeightFits(f, w, seen, low, j)
  }

  ghost predicate RowCountFits(f: seq<nat>, rc: seq<int>, seen: Entries, i: nat)
    requires 0 < i < |f| == |rc|
  {
    rc[i] == 1 + |ColumnsAt(f, seen, i)|
  }

  ghost predicate RowCountsFit(f: seq<nat>, rc: seq<int>, seen: Entries) {
    |f| == |rc| && forall i :: 0 < i < |f| ==> RowCountFits(f, rc, seen, i)
  }

  // ---- An entry that is no leaf ----

  lemma NoLeafKeepsSums(t: PostTree, seen: Entries, low: nat, i: nat, prv: nat, pleaf: nat, w: seq<int>, rc: seq<int>)
    requires t.Valid() && EntriesInTree(t.f, seen, low) && RowRead(t.f, seen, i, prv, pleaf) && 0 < low < |t.f|
    requires t.f[low] <= prv && WeightsFit(t.f, w, seen, low) && RowCountsFit(t.f, rc, seen)
    ensures WeightsFit(t.f, w, seen + {(low, i)}, low) && RowCountsFit(t.f, rc, seen + {(low, i)})
  {
    hide Meets, Below, Sum, Levels;
    var seen' := seen + {(low, i)};
    forall j | 0 < j < |t.f| && t.f[j] <= j ensures WeightFits(t.f, w, seen', low, j) {
      assert WeightFits(t.f, w, seen, low, j);
      forall r ensures r in RowsAt(t.f, seen', j) <==> r in RowsAt(t.f, seen, j) {
        NoLeaf(t.f, t.q, seen, low, i, prv, pleaf, j, r);
      }
      assert RowsAt(t.f, seen', j) == RowsAt(t.f, seen, j);
    }
    forall r | 0 < r < |t.f| ensures RowCountFits(t.f, rc, seen', r) {
      assert RowCountFits(t.f, rc, seen, r);
      forall j | 0 < j < r ensures j in ColumnsAt(t.f, seen', r) <==> j in ColumnsAt(t.f, seen, r) {
        NoLeaf(t.f, t.q, seen, low, i, prv, pleaf, j, r);
      }
      assert ColumnsAt(t.f, seen', r) == ColumnsAt(t.f, seen, r);
    }
  }

  // ---- An entry that is a leaf of its row's subtree ----

  /** What the entry adds to: the path from its column to where the row has been met before, at u, or to
      the root. */
  ghost predicate LeafEntry(t: PostTree, seen: Entries, low: nat, i: nat, prv: nat, pleaf: nat, u: nat) {
    && t.Valid() && EntriesInTree(t.f, seen, low) && RowRead(t.f, seen, i, prv, pleaf) && 0 < low < i < |t.f|
    && Under(t.f, i, low) && prv < t.f[low] && (prv != 0 ==> IsLeast(t.f, low, pleaf, u))
  }

  /** The vertices on that path. */
  predicate Gains(f: seq<nat>, low: nat, prv: nat, u: nat, j: nat)
    requires j < |f|
  {
    Under(f, j, low) && (prv == 0 || j < u)
  }

  lemma LeafGains(t: PostTree, seen: Entries, low: nat, i: nat, prv: nat, pleaf: nat, u: nat, j: nat)
    requires LeafEntry(t, seen, low, i, prv, pleaf, u) && 0 < j < |t.f|
    ensures Gains(t.f, low, prv, u, j) <==> Under(t.f, j, low) && !Meets(t.f, seen, j, i)
    ensures prv != 0 ==> Under(t.f, u, low) && u <= i && (Under(t.f, j, u) <==> Under(t.f, j, low) && u <= j)
  {
    hide Levels;
    if prv == 0 {
      if Under(t.f, j, low) {
        MetBefore(t.f, seen, low, i, prv, pleaf, j);
      }
    } else {
      LeafMeets(t.f, t.q, seen, low, i, prv, pleaf, u, j);
      var e := (pleaf, i);
      assert e in seen;
      assert Under(t.f, i, pleaf);
    }
  }

  lemma RowsGain(f: seq<nat>, seen: Entries, low: nat, i: nat, j: nat)
    requires 0 < i < |f| && 0 < j < |f|
    ensures RowsAt(f, seen + {(low, i)}, j) == RowsAt(f, seen, j) + if Under(f, j, low) then {i} else {}
  {
    hide Meets, Under;
    forall r ensures Meets(f, seen + {(low, i)}, j, r) <==> Meets(f, seen, j, r) || (r == i && Under(f, j, low)) {
      EntryAdds(f, seen, low, i, j, r);
    }
  }

  lemma LeafRows(t: PostTree, seen: Entries, low: nat, i: nat, prv: nat, pleaf: nat, u: nat, j: nat)
    requires LeafEntry(t, seen, low, i, prv, pleaf, u) && 0 < j < |t.f|
    ensures |RowsAt(t.f, seen + {(low, i)}, j)|
      == |RowsAt(t.f, seen, j)| + if Gains(t.f, low, prv, u, j) then 1 else 0
  {
    LeafGains(t, seen, low, i, prv, pleaf, u, j);
    RowsGain(t.f, seen, low, i, j);
    var rows := RowsAt(t.f, seen, j);
    assert i in rows <==> Meets(t.f, seen, j, i);
    hide Meets, PostTree.Valid, EntriesInTree, RowRead, IsLeast, Gains, Under, RowsAt;
    if Under(t.f, j, low) && i in rows {
      assert rows + {i} == rows;
    }
  }

  /** The weights after the entry: one more at its column and one less where the paths join. */
  function LeafWeights(w: seq<int>, low: nat, prv: nat, u: nat): seq<int>
    requires low < |w| && (prv != 0 ==> u < |w|)
  {
    var w1 := w[low := w[low] + 1];
    if prv == 0 then w1 else w1[u := w1[u] - 1]
  }

  lemma LeafSum(t: PostTree, seen: Entries, low: nat, i: nat, prv: nat, pleaf: nat, u: nat, w: seq<int>, j: nat)
    requires LeafEntry(t, seen, low, i, prv, pleaf, u) && 0 < j < |t.f| == |w| && t.f[j] <= j
    requires prv != 0 ==> u < |w|
    ensures SubtreeSum(LeafWeights(w, low, prv, u), t.f, j)
      == SubtreeSum(w, t.f, j) + if Gains(t.f, low, prv, u, j) then 1 else 0
  {
    LeafGains(t, seen, low, i, prv, pleaf, u, j);
    hide Nested, Levels, EntriesInTree, RowRead, IsLeast, Meets;
    SumAfter(w, t.f[j], j + 1, low, 1);
    if prv != 0 {
      var w1 := w[low := w[low] + 1];
      SumAfter(w1, t.f[j], j + 1, u, -1);
      assert LeafWeights(w, low, prv, u) == w1[u := w1[u] + -1];
    }
  }

  lemma LeafKeepsWeights(t: PostTree, seen: Entries, low: nat, i: nat, prv: nat, pleaf: nat, u: nat, w: seq<int>)
    requires LeafEntry(t, seen, low, i, prv, pleaf, u) && WeightsFit(t.f, w, seen, low)
    ensures prv != 0 ==> u < |w|
    ensures WeightsFit(t.f, LeafWeights(w, low, prv, u), seen + {(low, i)}, low)
  {
    LeafGains(t, seen, low, i, prv, pleaf, u, i);
    var w', seen' := LeafWeights(w, low, prv, u), seen + {(low, i)};
    hide LeafEntry, Gains, Under, Below, RowsAt, LeavesFrom, LeafWeights, SubtreeSum;
    forall j | 0 < j < |t.f| && t.f[j] <= j ensures WeightFits(t.f, w', seen', low, j) {
      assert WeightFits(t.f, w, seen, low, j);
      LeafRows(t, seen, low, i, prv, pleaf, u, j);
      LeafSum(t, seen, low, i, prv, pleaf, u, w, j);
    }
  }

  /** The columns of the row that the entry adds are those on the path below the meeting. */
  lemma LeafColumnAt(t: PostTree, seen: Entries, low: nat, i: nat, prv: nat, pleaf: nat, u: nat, top: nat, j: nat)
    requires LeafEntry(t, seen, low, i, prv, pleaf, u) && 0 < j && 0 < top <= i && top == (if prv == 0 then i else u)
    ensures j in ColumnsAt(t.f, seen + {(low, i)}, i) <==> j in ColumnsAt(t.f, seen, i) || j in Path(t.f, low, top)
    ensures j in Path(t.f, low, top) ==> j !in ColumnsAt(t.f, seen, i)
  {
    if j < i {
      LeafGains(t, seen, low, i, prv, pleaf, u, j);
      hide Meets, PostTree.Valid, EntriesInTree, RowRead, IsLeast;
      EntryAdds(t.f, seen, low, i, j, i);
    }
  }

  lemma LeafTop(t: PostTree, seen: Entries, low: nat, i: nat, prv: nat, pleaf: nat, u: nat) returns (top: nat)
    requires LeafEntry(t, seen, low, i, prv, pleaf, u)
    ensures top == (if prv == 0 then i else u) && 0 < low < |t.level| && 0 < top <= i < |t.f| == |t.level|
    ensures |Path(t.f, low, top)| == t.level[low] - t.level[top]
  {
    top := if prv == 0 then i else u;
    LeafGains(t, seen, low, i, prv, pleaf, u, i);
    PathLength(t.q, t.f, t.level, low, top);
  }

  lemma LeafColumns(t: PostTree, seen: Entries, low: nat, i: nat, prv: nat, pleaf: nat, u: nat)
    requires LeafEntry(t, seen, low, i, prv, pleaf, u)
    ensures prv != 0 ==> u < |t.level|
    ensures |ColumnsAt(t.f, seen + {(low, i)}, i)|
      == |ColumnsAt(t.f, seen, i)| + t.level[low] - t.level[if prv == 0 then i else u]
  {
    var top := LeafTop(t, seen, low, i, prv, pleaf, u);
    var cols, cols', path := ColumnsAt(t.f, seen, i), ColumnsAt(t.f, seen + {(low, i)}, i), Path(t.f, low, top);
    forall j: nat | 0 < j ensures j in cols' <==> j in cols || j in path
                          ensures j in path ==> j !in cols
    {
      LeafColumnAt(t, seen, low, i, prv, pleaf, u, top, j);
    }
    hide LeafEntry;
    assert cols' == cols + path && cols !! path;
  }

  lemma LeafKeepsRowCounts(t: PostTree, seen: Entries, low: nat, i: nat, prv: nat, pleaf: nat, u: nat, rc: seq<int>)
    requires LeafEntry(t, seen, low, i, prv, pleaf, u) && RowCountsFit(t.f, rc, seen)
    ensures prv != 0 ==> u < |t.level|
    ensures var top := if prv == 0 then i else u;
      RowCountsFit(t.f, rc[i := rc[i] + t.level[low] - t.level[top]], seen + {(low, i)})
  {
    LeafColumns(t, seen, low, i, prv, pleaf, u);
    hide Meets, Nested, Levels, EntriesInTree, RowRead, IsLeast;
    var seen' := seen + {(low, i)};
    var rc' := rc[i := rc[i] + t.level[low] - t.level[if prv == 0 then i else u]];
    assert RowCountFits(t.f, rc, seen, i);
    forall r | 0 < r < |t.f| ensures RowCountFits(t.f, rc', seen', r) {
      assert RowCountFits(t.f, rc, seen, r);
      if r != i {
        forall j | 0 < j < r ensures j in ColumnsAt(t.f, seen', r) <==> j in ColumnsAt(t.f, seen, r) {
          EntryAdds(t.f, seen, low, i, j, r);
        }
        assert ColumnsAt(t.f, seen', r) == ColumnsAt(t.f, seen, r);
      }
    }
  }

  // ---- A column that is done ----

  lemma PaidSum(t: PostTree, low: nat, w: seq<int>, j: nat)
    requires t.Valid() && 0 < low < |t.f| == |w| && 0 < j < |t.f|
    ensures t.q[low] < |w| && t.f[j] <= j
    ensures SubtreeSum(w[t.q[low] := w[t.q[low]] - 1], t.f, j) + Below(t.f, j, low + 1)
      == SubtreeSum(w, t.f, j) + Below(t.f, j, low)
  {
    hide Levels;
    var p := t.q[low];
    UnderParent(t.q, t.f, low, j);
    hide Nested;
    SumAfter(w, t.f[j], j + 1, p, -1);
    assert w[p := w[p] + -1] == w[p := w[p] - 1];
  }

  lemma PaidFits(t: PostTree, seen: Entries, low: nat, w: seq<int>, j: nat)
    requires t.Valid() && 0 < low < |t.f| == |w| && 0 < j < |t.f| && t.f[j] <= j && t.q[low] < |w|
    requires WeightFits(t.f, w, seen, low, j)
    ensures WeightFits(t.f, w[t.q[low] := w[t.q[low]] - 1], seen, low + 1, j)
  {
    hide PostTree.Valid, RowsAt, LeavesFrom, Below, SubtreeSum;
    PaidSum(t, low, w, j);
  }

  /** Every vertex takes one off its parent's weight. */
  lemma ParentPays(t: PostTree, seen: Entries, low: nat, w: seq<int>)
    requires t.Valid() && 0 < low < |t.f| && WeightsFit(t.f, w, seen, low)
    ensures t.q[low] < |w|
    ensures WeightsFit(t.f, w[t.q[low] := w[t.q[low]] - 1], seen, low + 1)
  {
    hide WeightFits;
    PaidSum(t, low, w, low);
    hide Nested, Levels;
    forall j | 0 < j < |t.f| && t.f[j] <= j
      ensures WeightFits(t.f, w[t.q[low] := w[t.q[low]] - 1], seen, low + 1, j)
    {
      PaidFits(t, seen, low, w, j);
    }
  }
}
