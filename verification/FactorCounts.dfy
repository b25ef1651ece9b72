/** Once all columns are read, the sums over the subtrees are the column counts of the factor. */
module FactorCounts {
  import opened Graphs
  import opened EliminationTrees
  import opened Fill
  import opened SubtreeIntervals
  import opened RowSubtrees
  import opened RowCounts

  /** The rows of column j of the factor, its diagonal entry included. */
  ghost function FactorColumn(E: Edges, n: nat, j: nat): (rows: set<nat>)
    ensures forall i :: i in rows <==> 0 < i <= n && (i == j || Nonzero(E, i, j))
  {
    set i | i in UpTo(n) && (i == j || Nonzero(E, i, j))
  }

  /** The columns of row i of the factor, its diagonal entry included. */
  ghost function FactorRow(E: Edges, i: nat): (cols: set<nat>)
    ensures forall j :: j in cols <==> 0 < j <= i && (i == j || Nonzero(E, i, j))
  {
    set j | j in UpTo(i) && (i == j || Nonzero(E, i, j))
  }

  /** The entries below the diagonal. */
  ghost predicate AllRead(E: Edges, n: nat, seen: Entries) {
    forall e :: e in seen <==> (e.1, e.0) in E && 0 < e.0 < e.1 <= n
  }

  /** The elimination tree of a symmetric pattern with the first vertices of its subtrees. */
  ghost predicate TreeWithFirsts(E: Edges, q: seq<nat>, f: seq<nat>) {
    Symmetric(E) && IsEtree(E, q) && Forest(q) && Intervals(q, f)
  }

  lemma AllReadFit(E: Edges, q: seq<nat>, f: seq<nat>, seen: Entries)
    requires TreeWithFirsts(E, q, f) && AllRead(E, |q| - 1, seen)
    ensures EntriesInTree(f, seen, |q| - 1) && Nested(q, f)
  {
    IntervalsNest(q, f);
    EtreeEdgesFollowTree(E, q);
    forall e | e in seen ensures 0 < e.0 <= |q| - 1 && e.0 < e.1 < |f| && f[e.1] <= e.0 {
      assert (e.1, e.0) in E;
      assert Ancestor(q, e.1, e.0) && AncestorOrSelf(q, e.1, e.0);
      assert SubtreeIs(q, f, e.1) && Under(f, e.1, e.0);
    }
  }

  /** Above its diagonal place, a row is met in the columns of its nonzeros. */
  lemma RowMet(E: Edges, q: seq<nat>, f: seq<nat>, seen: Entries, i: nat, j: nat)
    requires TreeWithFirsts(E, q, f) && AllRead(E, |q| - 1, seen) && 0 < j < i < |q|
    ensures Meets(f, seen, j, i) <==> Nonzero(E, i, j)
  {
    RowStructure(E, q, i, j);
    assert SubtreeIs(q, f, j);
    hide Nonzero, IsEtree, Ancestor;
    if Meets(f, seen, j, i) {
      var k: nat :| (k, i) in seen && Under(f, j, k);
      assert (i, k) in E;
    }
    if Nonzero(E, i, j) {
      var k :| 0 < k <= j && (i, k) in E && AncestorOrSelf(q, j, k);
      var e := (k, i);
      assert e in seen;
    }
  }

  /** Within the subtree of j, the rows met are those of the vertices with children. */
  lemma InnerRowMet(E: Edges, q: seq<nat>, f: seq<nat>, seen: Entries, i: nat, j: nat)
    requires TreeWithFirsts(E, q, f) && AllRead(E, |q| - 1, seen) && 0 < j < |q| && 0 < i && Under(f, j, i)
    ensures Meets(f, seen, j, i) <==> f[i] < i
  {
    AllReadFit(E, q, f, seen);
    hide TreeWithFirsts, AllRead;
    if Meets(f, seen, j, i) {
      var k: nat :| (k, i) in seen && Under(f, j, k);
      var e := (k, i);
      assert e in seen;
    }
    if f[i] < i {
      assert q[i - 1] == i;
      ChildIsMet(E, q, f, seen, i);
      var k: nat :| (k, i) in seen && Under(f, i - 1, k);
      assert f[j] <= f[i] <= f[i - 1];
    }
  }

  lemma ChildIsMet(E: Edges, q: seq<nat>, f: seq<nat>, seen: Entries, i: nat)
    requires TreeWithFirsts(E, q, f) && AllRead(E, |q| - 1, seen) && 1 < i < |q| && q[i - 1] == i
    ensures Meets(f, seen, i - 1, i)
  {
    ParentIsFirstNonzero(E, q, i - 1);
    RowMet(E, q, f, seen, i, i - 1);
  }

  lemma NoEarlierRow(f: seq<nat>, seen: Entries, low: nat, i: nat, j: nat)
    requires EntriesInTree(f, seen, low) && j < |f| && i < f[j]
    ensures !Meets(f, seen, j, i)
  {
  }

  ghost function Interval(a: nat, b: nat): (s: set<nat>)
    requires a <= b
    ensures forall x :: x in s <==> a <= x < b
    ensures |s| == b - a
    decreases b
  {
    if a == b then {} else Interval(a, b - 1) + {b - 1}
  }

  /** The vertices of the subtree of j that have children. */
  ghost function InnerAt(f: seq<nat>, j: nat): (inner: set<nat>)
    requires j < |f| && f[j] <= j
    ensures forall i :: i in inner <==> f[j] <= i <= j && f[i] < i
  {
    set i | i in Interval(f[j], j + 1) && f[i] < i
  }

  lemma MetIs(E: Edges, q: seq<nat>, f: seq<nat>, seen: Entries, j: nat, i: nat)
    requires TreeWithFirsts(E, q, f) && AllRead(E, |q| - 1, seen) && 0 < j < |q| && 0 < i < |q|
    ensures |f| == |q| && 0 < f[j] <= j
    ensures Meets(f, seen, j, i) <==> i in InnerAt(f, j) || (i != j && i in FactorColumn(E, |q| - 1, j))
    ensures i in InnerAt(f, j) ==> !(i != j && i in FactorColumn(E, |q| - 1, j))
  {
    AllReadFit(E, q, f, seen);
    NonzeroIsBelow(E, i, j);
    if i < f[j] {
      NoEarlierRow(f, seen, |q| - 1, i, j);
    } else if i <= j {
      InnerRowMet(E, q, f, seen, i, j);
    } else {
      RowMet(E, q, f, seen, i, j);
    }
  }

  /** The rows met in the subtree of j: those of column j, and its inner vertices. */
  lemma RowsMet(E: Edges, q: seq<nat>, f: seq<nat>, seen: Entries, j: nat)
    requires TreeWithFirsts(E, q, f) && AllRead(E, |q| - 1, seen) && 0 < j < |q|
    ensures |f| == |q| && 0 < f[j] <= j
    ensures |RowsAt(f, seen, j)| + |LeavesFrom(f, f[j], j + 1)| == |FactorColumn(E, |q| - 1, j)| + (j - f[j])
  {
    hide *;
    MetIs(E, q, f, seen, j, j);
    MetSplit(E, q, f, seen, j);
    FirstsAreBelow(E, q, f);
    InnerAndLeaves(f, j);
    var col, all := FactorColumn(E, |q| - 1, j), Interval(f[j], j + 1);
    Sizes(RowsAt(f, seen, j), InnerAt(f, j), col - {j}, LeavesFrom(f, f[j], j + 1), all, col, j);
  }

  lemma MetSplit(E: Edges, q: seq<nat>, f: seq<nat>, seen: Entries, j: nat)
    requires TreeWithFirsts(E, q, f) && AllRead(E, |q| - 1, seen) && 0 < j < |q|
    ensures |f| == |q| && 0 < f[j] <= j
    ensures RowsAt(f, seen, j) == InnerAt(f, j) + (FactorColumn(E, |q| - 1, j) - {j})
    ensures InnerAt(f, j) !! (FactorColumn(E, |q| - 1, j) - {j}) && j in FactorColumn(E, |q| - 1, j)
  {
    MetIs(E, q, f, seen, j, j);
    hide TreeWithFirsts, AllRead, Nonzero, Meets, Forest;
    var inner, outer := InnerAt(f, j), FactorColumn(E, |q| - 1, j) - {j};
    forall i | 0 < i < |q| ensures i in RowsAt(f, seen, j) <==> i in inner || i in outer
                           ensures !(i in inner && i in outer)
    {
      MetIs(E, q, f, seen, j, i);
    }
  }

  lemma Sizes(rows: set<nat>, inner: set<nat>, outer: set<nat>, leaves: set<nat>, all: set<nat>, col: set<nat>, j: nat)
    requires rows == inner + outer && inner !! outer && j in col && outer == col - {j}
    requires all == inner + leaves && inner !! leaves
    ensures |rows| + |leaves| == |all| + |col| - 1
  {
  }

  lemma FirstsAreBelow(E: Edges, q: seq<nat>, f: seq<nat>)
    requires TreeWithFirsts(E, q, f)
    ensures |f| == |q| && forall i :: 0 < i < |f| ==> 0 < f[i] <= i
  {
    IntervalsNest(q, f);
  }

  lemma InnerAndLeaves(f: seq<nat>, j: nat)
    requires 0 < j < |f| && 0 < f[j] <= j && forall i :: 0 < i < |f| ==> f[i] <= i
    ensures Interval(f[j], j + 1) == InnerAt(f, j) + LeavesFrom(f, f[j], j + 1)
    ensures InnerAt(f, j) !! LeavesFrom(f, f[j], j + 1)
  {
  }

  lemma NonzeroIsBelow(E: Edges, i: nat, j: nat)
    ensures Nonzero(E, i, j) ==> 0 < j < i
  {
  }

  /** The sum over the subtree of j is the number of nonzeros of column j of the factor. */
  lemma SumIsColumnCount(E: Edges, q: seq<nat>, f: seq<nat>, w: seq<int>, seen: Entries, j: nat)
    requires TreeWithFirsts(E, q, f) && AllRead(E, |q| - 1, seen) && 0 < j < |q| && WeightsFit(f, w, seen, |q|)
    ensures |f| == |q| == |w| && 0 < f[j] <= j && SubtreeSum(w, f, j) == |FactorColumn(E, |q| - 1, j)|
  {
    RowsMet(E, q, f, seen, j);
    hide FactorColumn, RowsAt, LeavesFrom, SubtreeSum;
    assert WeightFits(f, w, seen, |q|, j);
  }

  lemma RowCountIsNonzeros(E: Edges, q: seq<nat>, f: seq<nat>, rc: seq<int>, seen: Entries, i: nat)
    requires TreeWithFirsts(E, q, f) && AllRead(E, |q| - 1, seen) && 0 < i < |q| && RowCountsFit(f, rc, seen)
    ensures |f| == |q| == |rc| && rc[i] == |FactorRow(E, i)|
  {
    assert RowCountFits(f, rc, seen, i);
    var cols := ColumnsAt(f, seen, i);
    forall j ensures j in FactorRow(E, i) <==> j in cols || j == i {
      if 0 < j < i {
        RowMet(E, q, f, seen, i, j);
      }
    }
    assert FactorRow(E, i) == cols + {i};
  }

  // ---- Before the first column ----

  /** Weights are one at the vertices without children. */
  ghost predicate LeafOnes(f: seq<nat>, w: seq<int>) {
    |w| == |f| && forall x :: 0 < x < |f| ==> w[x] == if f[x] == x then 1 else 0
  }

  lemma {:induction false} LeafOnesSum(f: seq<nat>, w: seq<int>, a: nat, b: nat)
    requires LeafOnes(f, w) && 0 < a <= b <= |f|
    ensures Sum(w, a, b) == |LeavesFrom(f, a, b)|
    decreases b
  {
    if a == b {
      assert LeavesFrom(f, a, b) == {};
    } else {
      LeafOnesSum(f, w, a, b - 1);
      OneMoreLeaf(f, a, b - 1);
    }
  }

  lemma OneMoreLeaf(f: seq<nat>, a: nat, x: nat)
    requires a <= x < |f|
    ensures |LeavesFrom(f, a, x + 1)| == |LeavesFrom(f, a, x)| + if f[x] == x then 1 else 0
  {
    var before := LeavesFrom(f, a, x);
    assert LeavesFrom(f, a, x + 1) == if f[x] == x then before + {x} else before;
  }

  lemma StartFits(q: seq<nat>, f: seq<nat>, w: seq<int>, rc: seq<int>)
    requires Nested(q, f) && LeafOnes(f, w) && |rc| == |f| && forall i :: 0 < i < |rc| ==> rc[i] == 1
    ensures WeightsFit(f, w, {}, 1) && RowCountsFit(f, rc, {})
  {
    forall j | 0 < j < |f| && f[j] <= j ensures WeightFits(f, w, {}, 1, j) {
      LeafOnesSum(f, w, f[j], j + 1);
      assert RowsAt(f, {}, j) == {};
    }
    forall i | 0 < i < |f| ensures RowCountFits(f, rc, {}, i) {
      assert ColumnsAt(f, {}, i) == {};
    }
  }

  // ---- Handing the sums up the tree ----

  /** What the children of v below k have handed up. */
  function Handed(q: seq<nat>, f: seq<nat>, w: seq<int>, k: nat, v: nat): int
    requires k <= |q| == |f| == |w| && forall c :: 0 < c < |f| ==> f[c] <= c
  {
    if k <= 1 then 0
    else Handed(q, f, w, k - 1, v) + if q[k - 1] == v then SubtreeSum(w, f, k - 1) else 0
  }

  /** The subtrees of the children of v up to c lie next to each other. */
  lemma {:induction false} HandedIsSum(q: seq<nat>, f: seq<nat>, w: seq<int>, c: nat, v: nat)
    requires Nested(q, f) && |w| == |q| && 0 < c < v < |q| && q[c] == v
    ensures f[v] <= c && Handed(q, f, w, c + 1, v) == Sum(w, f[v], c + 1)
    decreases c
  {
    var x := f[c] - 1;
    NoChildBetween(q, f, w, c, v);
    if x >= f[v] {
      BeforeIsSibling(q, f, c, v);
      HandedIsSum(q, f, w, x, v);
      SumSplits(w, f[v], x + 1, c + 1);
    } else {
      assert f[v] <= f[c];
      NothingHanded(q, f, w, x + 1, v);
    }
  }

  lemma BeforeIsSibling(q: seq<nat>, f: seq<nat>, c: nat, v: nat)
    requires Nested(q, f) && 0 < c < v < |q| && q[c] == v && f[v] < f[c]
    ensures q[f[c] - 1] == v
  {
    var y := q[f[c] - 1];
    assert y != 0 && y <= v;
  }

  lemma {:induction false} NoChildBetween(q: seq<nat>, f: seq<nat>, w: seq<int>, c: nat, v: nat)
    requires Nested(q, f) && |w| == |q| && 0 < c < v < |q| && q[c] == v
    ensures Handed(q, f, w, c + 1, v) == Handed(q, f, w, f[c], v) + SubtreeSum(w, f, c)
  {
    NoneHanded(q, f, w, c, v, c);
  }

  lemma {:induction false} NoneHanded(q: seq<nat>, f: seq<nat>, w: seq<int>, c: nat, v: nat, k: nat)
    requires Nested(q, f) && |w| == |q| && 0 < c < v < |q| && q[c] == v && f[c] <= k <= c
    ensures Handed(q, f, w, k, v) == Handed(q, f, w, f[c], v)
    decreases k
  {
    if f[c] < k {
      NoneHanded(q, f, w, c, v, k - 1);
      assert q[k - 1] <= c;
    }
  }

  lemma {:induction false} NothingHanded(q: seq<nat>, f: seq<nat>, w: seq<int>, k: nat, v: nat)
    requires Nested(q, f) && |w| == |q| && 0 < v < |q| && k <= f[v]
    ensures Handed(q, f, w, k, v) == 0
    decreases k
  {
    if k > 1 {
      NothingHanded(q, f, w, k - 1, v);
    }
  }

  /** A vertex has received the sum of its subtree, its own weight apart. */
  lemma AllHanded(q: seq<nat>, f: seq<nat>, w: seq<int>, v: nat)
    requires Nested(q, f) && |w| == |q| && 0 < v < |q|
    ensures Handed(q, f, w, v, v) + w[v] == SubtreeSum(w, f, v)
  {
    if f[v] < v {
      assert q[v - 1] == v;
      HandedIsSum(q, f, w, v - 1, v);
    } else {
      NothingHanded(q, f, w, v, v);
      assert Sum(w, v, v) == 0;
    }
  }
}
