/** What a reordering along the tree does to the factor: it renames its nonzeros. So the counts that
    SortChildren takes as keys and moves along stay the counts. */
module CountsInRuns {
  import opened Graphs
  import opened EliminationTrees
  import opened Permutations
  import opened Relabelling
  import opened Fill
  import opened Postordering
  import opened Reorderings
  import opened FactorCounts

  /** A graph, its elimination tree, and the tree renamed so that children stay before parents. */
  ghost predicate Renamed(E: Edges, par: seq<nat>, s: seq<nat>, q: seq<nat>) {
    && Symmetric(E) && IsEtree(E, par) && Forest(par) && IsPermutation(s) && EdgesWithin(E, |s| - 1)
    && Topological(par, s) && IsRelabelledTree(par, s, q)
  }

  lemma RenamedTree(E: Edges, par: seq<nat>, s: seq<nat>, q: seq<nat>)
    requires Renamed(E, par, s, q)
    ensures |par| == |s| == |q| && Forest(q)
    ensures Symmetric(RelabelledEdges(E, s)) && IsEtree(RelabelledEdges(E, s), q)
  {
    RelabelledTreeIsForest(par, s, q);
    RelabelledEdgesBasics(E, s);
    EquivalentReordering(E, par, s, q);
  }

  /** Renaming neither adds nor drops an edge. */
  lemma EdgeBack(E: Edges, s: seq<nat>, i: nat, k: nat)
    requires IsPermutation(s) && EdgesWithin(E, |s| - 1) && 0 < i < |s| && 0 < k < |s|
    ensures (s[i], s[k]) in RelabelledEdges(E, s) <==> (i, k) in E
  {
    if (s[i], s[k]) in RelabelledEdges(E, s) {
      var e :| e in E && (s[i], s[k]) == (s[e.0], s[e.1]);
      assert e == (e.0, e.1);
    }
    if (i, k) in E {
      RelabelledEdge(E, s, i, k);
    }
  }

  lemma AncestryRenamed(E: Edges, par: seq<nat>, s: seq<nat>, q: seq<nat>, a: nat, v: nat)
    requires Renamed(E, par, s, q) && 0 < a < |s| && 0 < v < |s|
    ensures |par| == |s| == |q| && Forest(q)
    ensures Ancestor(q, s[a], s[v]) <==> Ancestor(par, a, v)
    ensures AncestorOrSelf(q, s[a], s[v]) <==> AncestorOrSelf(par, a, v)
  {
    RelabelledTreeIsForest(par, s, q);
    if Ancestor(par, a, v) {
      AncestorRelabelled(par, s, q, a, v);
    }
    if Ancestor(q, s[a], s[v]) {
      AncestorRelabelledBack(par, s, q, a, v);
    }
  }

  /** A row of the factor meets a column through a matrix entry in the column's subtree. */
  ghost predicate EntryUnder(E: Edges, par: seq<nat>, i: nat, j: nat, k: nat)
    requires Forest(par)
  {
    0 < k <= j && (i, k) in E && AncestorOrSelf(par, j, k)
  }

  lemma NonzeroByEntry(E: Edges, par: seq<nat>, i: nat, j: nat)
    requires Symmetric(E) && IsEtree(E, par) && Forest(par) && 0 < j < i < |par|
    ensures Nonzero(E, i, j) <==> exists k: nat :: EntryUnder(E, par, i, j, k)
    ensures Nonzero(E, i, j) ==> Ancestor(par, i, j)
  {
    RowStructure(E, par, i, j);
    if k: nat :| EntryUnder(E, par, i, j, k) {
      assert 0 < k <= j && (i, k) in E && AncestorOrSelf(par, j, k);
    }
    if k :| 0 < k <= j && (i, k) in E && AncestorOrSelf(par, j, k) {
      assert EntryUnder(E, par, i, j, k);
    }
  }

  lemma EntryUnderRenamed(E: Edges, par: seq<nat>, s: seq<nat>, q: seq<nat>, i: nat, j: nat, k: nat)
    requires Renamed(E, par, s, q) && 0 < i < |s| && 0 < j < |s| && 0 < k < |s|
    ensures |par| == |s| == |q| && Forest(q)
    ensures EntryUnder(RelabelledEdges(E, s), q, s[i], s[j], s[k]) <==> EntryUnder(E, par, i, j, k)
  {
    AncestryRenamed(E, par, s, q, j, k);
    EdgeBack(E, s, i, k);
    if AncestorOrSelf(par, j, k) {
      if j != k {
        AncestorIsLarger(par, j, k);
        AncestorIsLarger(q, s[j], s[k]);
      }
    }
  }

  lemma NonzeroGoesOver(E: Edges, par: seq<nat>, s: seq<nat>, q: seq<nat>, i: nat, j: nat)
    requires Renamed(E, par, s, q) && 0 < i < |s| && 0 < j < |s| && Nonzero(E, i, j)
    ensures Nonzero(RelabelledEdges(E, s), s[i], s[j])
  {
    RenamedTree(E, par, s, q);
    NonzeroIsBelow(E, i, j);
    NonzeroByEntry(E, par, i, j);
    AncestryRenamed(E, par, s, q, i, j);
    AncestorIsLarger(q, s[i], s[j]);
    hide IsEtree, Renamed, RelabelledEdges, Nonzero, Ancestor;
    NonzeroByEntry(RelabelledEdges(E, s), q, s[i], s[j]);
    var k: nat :| EntryUnder(E, par, i, j, k);
    EntryUnderRenamed(E, par, s, q, i, j, k);
  }

  lemma NonzeroComesBack(E: Edges, par: seq<nat>, s: seq<nat>, q: seq<nat>, i: nat, j: nat)
    requires Renamed(E, par, s, q) && 0 < i < |s| && 0 < j < |s| && Nonzero(RelabelledEdges(E, s), s[i], s[j])
    ensures Nonzero(E, i, j)
  {
    var E' := RelabelledEdges(E, s);
    RenamedTree(E, par, s, q);
    NonzeroIsBelow(E', s[i], s[j]);
    NonzeroByEntry(E', q, s[i], s[j]);
    AncestryRenamed(E, par, s, q, i, j);
    AncestorIsLarger(par, i, j);
    hide IsEtree, Renamed, RelabelledEdges, Nonzero, Ancestor;
    NonzeroByEntry(E, par, i, j);
    var w: nat :| EntryUnder(E', q, s[i], s[j], w);
    var k := Renames(E, par, s, q, w);
    EntryUnderRenamed(E, par, s, q, i, j, k);
  }

  /** The factor of the renamed graph is the renamed factor. */
  lemma NonzeroRenamed(E: Edges, par: seq<nat>, s: seq<nat>, q: seq<nat>, i: nat, j: nat)
    requires Renamed(E, par, s, q) && 0 < i < |s| && 0 < j < |s|
    ensures Nonzero(RelabelledEdges(E, s), s[i], s[j]) <==> Nonzero(E, i, j)
  {
    hide Nonzero, IsEtree, Forest, RelabelledEdges, IsRelabelledTree;
    if Nonzero(E, i, j) {
      NonzeroGoesOver(E, par, s, q, i, j);
    } else if Nonzero(RelabelledEdges(E, s), s[i], s[j]) {
      NonzeroComesBack(E, par, s, q, i, j);
    }
  }

  lemma Renames(E: Edges, par: seq<nat>, s: seq<nat>, q: seq<nat>, w: nat) returns (k: nat)
    requires Renamed(E, par, s, q) && 0 < w < |s|
    ensures 0 < k < |s| && s[k] == w
  {
    PermutationIsOnto(s, w);
    k :| 0 < k < |s| && s[k] == w;
  }

  // ---- Counting ----

  ghost function Moved(A: set<nat>, s: seq<nat>): (B: set<nat>)
    requires forall v :: v in A ==> v < |s|
  {
    set v | v in A :: s[v]
  }

  lemma {:induction false} MovedSize(A: set<nat>, s: seq<nat>)
    requires IsPermutation(s) && forall v :: v in A ==> 0 < v < |s|
    ensures |Moved(A, s)| == |A|
    decreases |A|
  {
    if A == {} {
      assert Moved(A, s) == {};
    } else {
      var x :| x in A;
      MovedSize(A - {x}, s);
      assert s[x] !in Moved(A - {x}, s);
      assert Moved(A, s) == Moved(A - {x}, s) + {s[x]};
    }
  }

  lemma ColumnRenamed(E: Edges, par: seq<nat>, s: seq<nat>, q: seq<nat>, j: nat)
    requires Renamed(E, par, s, q) && 0 < j < |s|
    ensures |FactorColumn(RelabelledEdges(E, s), |s| - 1, s[j])| == |FactorColumn(E, |s| - 1, j)|
  {
    var A, B := FactorColumn(E, |s| - 1, j), FactorColumn(RelabelledEdges(E, s), |s| - 1, s[j]);
    forall w: nat ensures w in B <==> w in Moved(A, s) {
      if 0 < w < |s| {
        var i := Renames(E, par, s, q, w);
        NonzeroRenamed(E, par, s, q, i, j);
        hide Nonzero;
        assert i in A ==> s[i] in Moved(A, s);
      }
    }
    assert B == Moved(A, s);
    MovedSize(A, s);
  }

  /** The keys are the numbers of nonzeros of the columns of the factor under these labels. */
  ghost predicate CountsOf(E: Edges, st: Labelled, cc: seq<int>)
    requires TreeOf(E, st)
  {
    |cc| == |st.invp| && forall j :: 0 < j < |cc| ==> ColumnCounted(RelabelledEdges(E, st.invp), cc, j)
  }

  ghost predicate ColumnCounted(E: Edges, cc: seq<int>, j: nat)
    requires j < |cc|
  {
    cc[j] == |FactorColumn(E, |cc| - 1, j)|
  }

  /** Sorting children by the counts moves them to where they are the counts of the new order. */
  lemma SortKeepsCounts(E: Edges, a: Labelled, b: Labelled, cc: seq<int>, s: seq<nat>, cc': seq<int>)
    requires Symmetric(E) && TreeOf(E, a) && CountsOf(E, a, cc) && SortStep(a, b, cc, s, cc')
    ensures TreeOf(E, b) && CountsOf(E, b, cc')
  {
    SortKeepsTree(E, a, b, cc, s, cc');
    SortRenames(E, a, b, cc, s, cc');
    var E1 := RelabelledEdges(E, a.invp);
    CountsApart(E, a, cc);
    hide *;
    forall w | 0 < w < |cc'| ensures ColumnCounted(RelabelledEdges(E1, s), cc', w) {
      MovedCount(E1, a.parents, s, b.parents, cc, cc', w);
    }
    MakeCounts(E, b, cc', RelabelledEdges(E1, s));
  }

  lemma CountsApart(E: Edges, a: Labelled, cc: seq<int>)
    requires TreeOf(E, a) && CountsOf(E, a, cc)
    ensures EdgesWithin(E, |a.invp| - 1)
    ensures forall j :: 0 < j < |cc| ==> ColumnCounted(RelabelledEdges(E, a.invp), cc, j)
  {
  }

  lemma MakeCounts(E: Edges, b: Labelled, cc: seq<int>, E': Edges)
    requires TreeOf(E, b) && |cc| == |b.invp| && E' == RelabelledEdges(E, b.invp)
    requires forall j :: 0 < j < |cc| ==> ColumnCounted(E', cc, j)
    ensures CountsOf(E, b, cc)
  {
  }

  lemma MovedCount(E: Edges, par: seq<nat>, s: seq<nat>, q: seq<nat>, cc: seq<int>, cc': seq<int>, w: nat)
    requires Renamed(E, par, s, q) && MovedBy(s, cc, cc') && 0 < w < |s|
    requires forall j :: 0 < j < |cc| ==> ColumnCounted(E, cc, j)
    ensures EdgesWithin(E, |s| - 1) && |cc'| == |s| && ColumnCounted(RelabelledEdges(E, s), cc', w)
  {
    var j := Renames(E, par, s, q, w);
    assert ColumnCounted(E, cc, j);
    ColumnRenamed(E, par, s, q, j);
  }

  lemma SortRenames(E: Edges, a: Labelled, b: Labelled, cc: seq<int>, s: seq<nat>, cc': seq<int>)
    requires Symmetric(E) && TreeOf(E, a) && SortStep(a, b, cc, s, cc') && TreeOf(E, b)
    ensures EdgesWithin(RelabelledEdges(E, a.invp), |a.invp| - 1)
    ensures Renamed(RelabelledEdges(E, a.invp), a.parents, s, b.parents)
    ensures RelabelledEdges(E, b.invp) == RelabelledEdges(RelabelledEdges(E, a.invp), s)
    ensures |cc| == |cc'| == |s| == |a.invp| == |b.invp| && MovedBy(s, cc, cc')
  {
    WalkNumbersPostorder(a.parents, cc, s);
    RelabelledEdgesBasics(E, a.invp);
    RelabelledTwice(E, a.invp, s);
  }

  /** Any number of child sortings, each by the keys the one before has moved. */
  ghost predicate SortedRun(run: seq<Labelled>, keys: seq<seq<int>>) {
    |run| == |keys| >= 1 && forall k :: 0 < k < |run| ==> SortsBy(run[k - 1], run[k], keys[k - 1], keys[k])
  }

  ghost predicate SortsBy(a: Labelled, b: Labelled, cc: seq<int>, cc': seq<int>) {
    exists s :: SortStep(a, b, cc, s, cc')
  }

  /** Counts once made stay the counts, without being made again. */
  lemma {:induction false} RunKeepsCounts(E: Edges, run: seq<Labelled>, keys: seq<seq<int>>, k: nat)
    requires Symmetric(E) && SortedRun(run, keys) && TreeOf(E, run[0]) && CountsOf(E, run[0], keys[0]) && k < |run|
    ensures TreeOf(E, run[k]) && CountsOf(E, run[k], keys[k])
  {
    if k > 0 {
      RunKeepsCounts(E, run, keys, k - 1);
      assert SortsBy(run[k - 1], run[k], keys[k - 1], keys[k]);
      var s :| SortStep(run[k - 1], run[k], keys[k - 1], s, keys[k]);
      SortKeepsCounts(E, run[k - 1], run[k], keys[k - 1], s, keys[k]);
    }
  }
}
