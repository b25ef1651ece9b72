/** Symbolic elimination and the elimination tree. */
module Fill {
  import opened Graphs
  import opened EliminationTrees

  /** Entry (i, j), i > j, of the factor: an entry of the matrix, or filled in when the elimination
      of an earlier column k holds both rows. */
  ghost predicate Nonzero(E: Edges, i: nat, j: nat)
    decreases j
  {
    && 0 < j < i
    && ((i, j) in E || exists k :: 0 < k < j && Nonzero(E, j, k) && Nonzero(E, i, k))
  }

  lemma {:induction false} NonzeroIsJoined(E: Edges, i: nat, j: nat)
    requires Symmetric(E) && Nonzero(E, i, j)
    ensures Connected(E, UpTo(j) + {i}, j, i)
    decreases j
  {
    var S := UpTo(j) + {i};
    if (i, j) in E {
      assert (j, i) in E;
      ConnectedEdge(E, S, j, i);
    } else {
      var k :| 0 < k < j && Nonzero(E, j, k) && Nonzero(E, i, k);
      NonzeroIsJoined(E, j, k);
      NonzeroIsJoined(E, i, k);
      ConnectedMono(E, UpTo(k) + {j}, S, k, j);
      ConnectedMono(E, UpTo(k) + {i}, S, k, i);
      ConnectedSym(E, S, k, j);
      ConnectedTrans(E, S, j, k, i);
    }
  }

  /** The parent is already reached through vertices no larger than the child. */
  lemma ParentJoinedFromBelow(E: Edges, par: seq<nat>, j: nat)
    requires Symmetric(E) && IsEtree(E, par) && 0 < j < |par| && par[j] != 0
    ensures j < par[j] < |par| && Connected(E, UpTo(j) + {par[j]}, j, par[j])
  {
    EtreeIsForest(E, par);
    EtreeCharacterised(E, par);
    var p := par[j];
    assert IsParent(E, |par| - 1, j, p);
    var via :| Walk(E, UpTo(p), j, via, p);
    assert UpTo(p) == UpTo(p - 1) + {p};
    var x := LastStep(E, UpTo(p - 1), j, via, p);
    SubtreeIsClosedBelowParent(E, par, j, p - 1);
    ConnectedStaysClosed(E, UpTo(p - 1), Subtree(par, j), j, x);
    var S := UpTo(j) + {p};
    forall v | v in UpTo(p - 1) * Subtree(par, j)
      ensures v in S
    {
      if v != j { AncestorIsLarger(par, j, v); }
    }
    ConnectedMono(E, UpTo(p - 1) * Subtree(par, j), S, j, x);
    ConnectedEnds(E, S, j, x);
    ConnectedEdge(E, S, x, p);
    ConnectedTrans(E, S, j, x, p);
  }

  /** A row index found at x travels up the tree: it is in every column j on the way below it. */
  lemma {:induction false} NonzeroClimbs(E: Edges, par: seq<nat>, i: nat, x: nat, j: nat)
    requires Symmetric(E) && IsEtree(E, par) && Forest(par)
    requires Nonzero(E, i, x) && AncestorOrSelf(par, j, x) && j < i < |par|
    ensures Nonzero(E, i, j)
    decreases j, 0, j - x
  {
    if x != j {
      AncestorIsLarger(par, j, x);
      var q := par[x];
      if q != j { AncestorIsLarger(par, j, q); }
      ParentJoinedFromBelow(E, par, x);
      JoinedIsNonzero(E, par, q, x);
      NonzeroClimbs(E, par, i, q, j);
    }
  }

  lemma {:induction false} JoinedIsNonzero(E: Edges, par: seq<nat>, i: nat, j: nat)
    requires Symmetric(E) && IsEtree(E, par) && Forest(par)
    requires 0 < j < i < |par| && Connected(E, UpTo(j) + {i}, j, i)
    ensures Nonzero(E, i, j)
    decreases j, 1
  {
    var x := EntryBelow(E, par, i, j);
    assert (i, x) in E;
    NonzeroClimbs(E, par, i, x, j);
  }

  lemma EntryBelow(E: Edges, par: seq<nat>, i: nat, j: nat) returns (x: nat)
    requires Symmetric(E) && IsEtree(E, par) && Forest(par)
    requires 0 < j < i < |par| && Connected(E, UpTo(j) + {i}, j, i)
    ensures 0 < x <= j && (i, x) in E && AncestorOrSelf(par, j, x)
  {
    var via :| Walk(E, UpTo(j) + {i}, j, via, i);
    x := LastStep(E, UpTo(j), j, via, i);
    assert (i, x) in E;
    ConnectedEnds(E, UpTo(j), j, x);
    if x != j {
      ConnectedSym(E, UpTo(j), j, x);
      JoinedIsAncestor(E, par, x, j);
    }
  }

  /** The fill path theorem: (i, j) fills in iff i is reached from j through vertices up to j. */
  lemma FillPath(E: Edges, i: nat, j: nat)
    requires Symmetric(E) && 0 < j < i
    ensures Nonzero(E, i, j) <==> Connected(E, UpTo(j) + {i}, j, i)
  {
    if Nonzero(E, i, j) {
      NonzeroIsJoined(E, i, j);
    } else if Connected(E, UpTo(j) + {i}, j, i) {
      var par := EtreeExists(E, i);
      EtreeIsForest(E, par);
      JoinedIsNonzero(E, par, i, j);
    }
  }

  /** parent[j] is the first below-diagonal nonzero of column j of the factor. */
  lemma ParentIsFirstNonzero(E: Edges, par: seq<nat>, j: nat)
    requires Symmetric(E) && IsEtree(E, par) && 0 < j < |par|
    ensures par[j] != 0 ==> Nonzero(E, par[j], j)
    ensures forall i :: j < i < |par| && Nonzero(E, i, j) ==> par[j] != 0 && par[j] <= i
  {
    EtreeIsForest(E, par);
    assert IsParent(E, |par| - 1, j, par[j]);
    if par[j] != 0 {
      ParentJoinedFromBelow(E, par, j);
      JoinedIsNonzero(E, par, par[j], j);
    }
    forall i | j < i < |par| && Nonzero(E, i, j)
      ensures par[j] != 0 && par[j] <= i
    {
      NonzeroIsJoined(E, i, j);
      ConnectedMono(E, UpTo(j) + {i}, UpTo(i), j, i);
      assert Joined(E, j, i);
    }
  }

  /** The nonzeros of row i of the factor are the paths from its matrix entries up the tree. */
  lemma RowStructure(E: Edges, par: seq<nat>, i: nat, j: nat)
    requires Symmetric(E) && IsEtree(E, par) && Forest(par) && 0 < j < i < |par|
    ensures Nonzero(E, i, j) <==> exists k :: 0 < k <= j && (i, k) in E && AncestorOrSelf(par, j, k)
    ensures Nonzero(E, i, j) ==> Ancestor(par, i, j)
  {
    if Nonzero(E, i, j) {
      NonzeroIsJoined(E, i, j);
      var x := EntryBelow(E, par, i, j);
      ConnectedMono(E, UpTo(j) + {i}, UpTo(i), j, i);
      JoinedIsAncestor(E, par, j, i);
    }
    if k :| 0 < k <= j && (i, k) in E && AncestorOrSelf(par, j, k) {
      NonzeroClimbs(E, par, i, k, j);
    }
  }
}
