/** What the constructed tree is the tree of: the whole pattern, unless a single-entry column hides an edge. */
module ConstructedTrees {
  import opened Graphs
  import opened EliminationTrees
  import opened Permutations
  import opened Relabelling
  import opened SparseGraphs

  ghost predicate SameOffDiagonal(E: Edges, E': Edges) {
    forall a, b :: a != b ==> ((a, b) in E <==> (a, b) in E')
  }

  lemma {:induction false} WalkIgnoresLoops(E: Edges, E': Edges, S: set<nat>, a: nat, via: seq<nat>, b: nat)
    requires SameOffDiagonal(E, E') && Walk(E, S, a, via, b)
    ensures Connected(E', S, a, b)
    decreases |via|
  {
    if via == [] {
      ConnectedSelf(E', S, a);
    } else {
      WalkIgnoresLoops(E, E', S, via[0], via[1..], b);
      if via[0] != a {
        WalkEnds(E, S, via[0], via[1..], b);
        ConnectedEdge(E', S, a, via[0]);
        ConnectedTrans(E', S, a, via[0], b);
      }
    }
  }

  lemma JoinedIgnoresLoops(E: Edges, E': Edges, j: nat, k: nat)
    requires SameOffDiagonal(E, E')
    ensures Joined(E, j, k) <==> Joined(E', j, k)
  {
    if Joined(E, j, k) {
      var via :| Walk(E, UpTo(k), j, via, k);
      WalkIgnoresLoops(E, E', UpTo(k), j, via, k);
    }
    if Joined(E', j, k) {
      var via :| Walk(E', UpTo(k), j, via, k);
      WalkIgnoresLoops(E', E, UpTo(k), j, via, k);
    }
  }

  /** Diagonal entries do not affect the elimination tree. */
  lemma EtreeIgnoresLoops(E: Edges, E': Edges, par: seq<nat>)
    requires SameOffDiagonal(E, E')
    ensures IsEtree(E, par) <==> IsEtree(E', par)
  {
    forall j, k
      ensures Joined(E, j, k) <==> Joined(E', j, k)
    {
      JoinedIgnoresLoops(E, E', j, k);
    }
    assert forall j :: 0 < j < |par| ==> (IsParent(E, |par| - 1, j, par[j]) <==> IsParent(E', |par| - 1, j, par[j]));
  }

  lemma TakenEdgesAreTheGraph(cols: Columns)
    requires Expanded(cols) && forall i: nat :: !MissesEdge(cols, i)
    ensures SameOffDiagonal(TakenEdges(cols), EdgesOf(cols))
  {
    var T, E := TakenEdges(cols), EdgesOf(cols);
    forall a: nat, b: nat | a != b && (a, b) in T
      ensures (a, b) in E
    {
      assert Stored(cols, a, b) || Stored(cols, b, a);
    }
    forall a: nat, b: nat | a != b && (a, b) in E
      ensures (a, b) in T
    {
      assert Stored(cols, a, b) && Stored(cols, b, a);
      var hi, lo := if a < b then b else a, if a < b then a else b;
      assert !MissesEdge(cols, hi);
      assert Taken(cols, hi, lo);
    }
  }

  lemma SomeChildOf(par: seq<nat>, a: nat, v: nat) returns (c: nat)
    requires Forest(par) && Ancestor(par, a, v)
    ensures 0 < c < |par| && par[c] == a
    decreases |par| - v
  {
    if par[v] == a { c := v; } else { c := SomeChildOf(par, a, par[v]); }
  }

  /** A vertex whose column contributes nothing is never made a parent. */
  lemma SkippedColumnHasNoChildren(cols: Columns, q: seq<nat>, i: nat, c: nat)
    requires IsEtree(TakenEdges(cols), q) && |q| == |cols| + 1
    requires 0 < i <= |cols| && |Rows(cols, i)| < 2 && 0 < c < |q|
    ensures q[c] != i
  {
    var T := TakenEdges(cols);
    assert forall x: nat :: 0 < x < i ==> (x, i) !in T;
    if q[c] == i {
      assert IsParent(T, |q| - 1, c, q[c]);
      var via :| Walk(T, UpTo(i), c, via, i);
      assert UpTo(i) == UpTo(i - 1) + {i};
      var x := LastStep(T, UpTo(i - 1), c, via, i);
      ConnectedEnds(T, UpTo(i - 1), c, x);
    }
  }

  /** The constructed array is the elimination tree of the stored pattern exactly when no
      single-entry column holds an entry above the diagonal. */
  lemma ConstructionIsExact(cols: Columns, q: seq<nat>)
    requires Expanded(cols) && |q| == |cols| + 1 && IsEtree(TakenEdges(cols), q)
    ensures IsEtree(EdgesOf(cols), q) <==> forall i: nat :: !MissesEdge(cols, i)
  {
    var E := EdgesOf(cols);
    if forall i: nat :: !MissesEdge(cols, i) {
      TakenEdgesAreTheGraph(cols);
      EtreeIgnoresLoops(TakenEdges(cols), E, q);
    } else if IsEtree(E, q) {
      var i: nat :| MissesEdge(cols, i);
      var k := Rows(cols, i)[0];
      assert Stored(cols, i, k) && Stored(cols, k, i);
      EtreeIsForest(E, q);
      assert Symmetric(E);
      EtreeCharacterised(E, q);
      assert Ancestor(q, i, k);
      var c := SomeChildOf(q, i, k);
      SkippedColumnHasNoChildren(cols, q, i, c);
    }
  }

  lemma PermutedIsExpanded(cols: Columns, perm: seq<nat>, invp: seq<nat>)
    requires Expanded(cols) && |perm| == |invp| == |cols| + 1 && Inverses(invp, perm)
    ensures Expanded(PermutedColumns(cols, perm, invp))
  {
    var P := PermutedColumns(cols, perm, invp);
    PermutedColumnsEdges(cols, perm, invp);
    var E := EdgesOf(cols);
    assert Symmetric(E);
    RelabelledEdgesBasics(E, invp);
    forall c: nat, r: nat | Stored(P, c, r)
      ensures Stored(P, r, c)
    {
      assert (c, r) in EdgesOf(P) && (r, c) in EdgesOf(P);
    }
  }

  /** With every diagonal entry stored, the sequential overload returns the elimination tree of the
      graph relabelled by the ordering. */
  lemma ConstructionIsTheTreeOfTheOrdering(cols: Columns, perm: seq<nat>, invp: seq<nat>, q: seq<nat>)
    requires Expanded(cols) && |perm| == |invp| == |cols| + 1 == |q| && Inverses(invp, perm)
    requires forall c: nat :: 0 < c <= |cols| ==> Stored(cols, c, c)
    requires IsEtree(TakenEdges(PermutedColumns(cols, perm, invp)), q)
    ensures EdgesWithin(EdgesOf(cols), |cols|) && IsEtree(RelabelledEdges(EdgesOf(cols), invp), q)
  {
    var P := PermutedColumns(cols, perm, invp);
    PermutedColumnsEdges(cols, perm, invp);
    PermutedIsExpanded(cols, perm, invp);
    forall i: nat | 0 < i <= |cols|
      ensures Stored(P, i, i)
    {
      assert Stored(cols, perm[i], perm[i]);
      RelabelledEdge(EdgesOf(cols), invp, perm[i], perm[i]);
      assert (i, i) in EdgesOf(P);
    }
    DiagonalStoredMissesNothing(P);
    ConstructionIsExact(P, q);
  }

  // ------------------------------------------------------------------------------------------
  // The order of the rows inside a column does not matter.
  // ------------------------------------------------------------------------------------------

  ghost predicate SameUpToRowOrder(cols: Columns, cols': Columns) {
    && |cols| == |cols'|
    && forall c :: 0 < c <= |cols| ==> multiset(Rows(cols, c)) == multiset(Rows(cols', c))
  }

  lemma TakenIgnoresRowOrder(cols: Columns, cols': Columns, i: nat, k: nat)
    requires SameUpToRowOrder(cols, cols')
    ensures Taken(cols, i, k) <==> Taken(cols', i, k)
  {
    if 0 < i <= |cols| {
      var a, b := Rows(cols, i), Rows(cols', i);
      assert |a| == |multiset(a)| == |multiset(b)| == |b|;
      assert k in a <==> k in multiset(a);
      assert k in b <==> k in multiset(b);
    }
  }

  /** Any two constructions whose columns agree up to row order return the same parents. */
  lemma SameColumnsSameTree(cols: Columns, cols': Columns, p: seq<nat>, q: seq<nat>)
    requires SameUpToRowOrder(cols, cols') && |p| == |q|
    requires IsEtree(TakenEdges(cols), p) && IsEtree(TakenEdges(cols'), q)
    ensures p[1..] == q[1..]
  {
    forall a: nat, b: nat
      ensures (a, b) in TakenEdges(cols) <==> (a, b) in TakenEdges(cols')
    {
      TakenIgnoresRowOrder(cols, cols', a, b);
      TakenIgnoresRowOrder(cols, cols', b, a);
    }
    assert TakenEdges(cols) == TakenEdges(cols');
    EtreeIsUnique(TakenEdges(cols), p, q);
  }
}
