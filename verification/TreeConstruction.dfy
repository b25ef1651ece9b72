/** Why the path-compressing construction builds the elimination tree.
    `Linked` is what holds between two steps; it speaks of parent and ancstr only through the
    roots of the virtual forest. */
module TreeConstruction {
  import opened Graphs
  import opened EliminationTrees
  import opened VirtualForest

  /** Vertices 1..i are in, with all edges below i and the edges from i to D. */
  ghost predicate Linked(E: Edges, i: nat, D: set<nat>, par: seq<nat>, anc: seq<nat>) {
    && Forest(anc) && |par| == |anc| && i < |anc|
    && (forall v :: 0 < v <= i ==> anc[v] <= i)
    && (forall v :: i < v < |anc| ==> anc[v] == 0 && par[v] == 0)
    && (forall d :: d in D ==> 0 < d < i && Root(anc, d) == i)
    && EdgesShareRoots(E, i, anc)
    && (forall v :: 0 < v <= i ==> ReachesRoot(E, anc, v))
    && (forall v :: 0 < v <= i ==> ParentMatches(E, v, par, anc))
  }

  /** Both ends of every edge below i are in one tree. */
  ghost predicate EdgesShareRoots(E: Edges, i: nat, anc: seq<nat>)
    requires Forest(anc) && i <= |anc|
  {
    forall x, y :: (x, y) in E && 0 < y < x < i ==> Root(anc, x) == Root(anc, y)
  }

  /** v is joined to the root of its tree by vertices no larger than that root. */
  ghost predicate ReachesRoot(E: Edges, anc: seq<nat>, v: nat)
    requires Forest(anc) && 0 < v < |anc|
  {
    Joined(E, v, Root(anc, v))
  }

  /** Roots have no parent yet; every other vertex already has its final one. */
  ghost predicate ParentMatches(E: Edges, v: nat, par: seq<nat>, anc: seq<nat>)
    requires 0 < v < |par| == |anc|
  {
    if anc[v] == 0 then par[v] == 0 else par[v] != 0 && IsParent(E, |par| - 1, v, par[v])
  }

  ghost predicate AllNeighboursIn(E: Edges, i: nat, D: set<nat>) {
    forall k :: (i, k) in E && 0 < k < i ==> k in D
  }

  /** Edges that share roots cannot join a root to anything above it. */
  lemma RootIsNotJoined(E: Edges, i: nat, anc: seq<nat>, v: nat, k: nat)
    requires Symmetric(E) && Forest(anc) && i <= |anc| && EdgesShareRoots(E, i, anc)
    requires 0 < v < k < i && anc[v] == 0
    ensures !Joined(E, v, k)
  {
    if Joined(E, v, k) {
      var C := set u | u in UpTo(k) && Root(anc, u) == v;
      forall x, y | (x, y) in E && x in C && x in UpTo(k) && y in UpTo(k)
        ensures y in C
      {
        assert (y, x) in E;
      }
      ConnectedStaysClosed(E, UpTo(k), C, v, k);
    }
  }

  /** With its last neighbour in, the edges of vertex i count as well. */
  lemma ColumnComplete(E: Edges, i: nat, D: set<nat>, par: seq<nat>, anc: seq<nat>)
    requires Linked(E, i, D, par, anc) && AllNeighboursIn(E, i, D)
    ensures EdgesShareRoots(E, i + 1, anc)
  {
    if i > 0 { assert Root(anc, i) == i; }
  }

  /** The next vertex starts as a tree of its own. */
  lemma NewVertex(E: Edges, i: nat, D: set<nat>, par: seq<nat>, anc: seq<nat>)
    requires Linked(E, i, D, par, anc) && i + 1 < |anc| && AllNeighboursIn(E, i, D)
    ensures Linked(E, i + 1, {}, par, anc)
  {
    ColumnComplete(E, i, D, par, anc);
    ConnectedSelf(E, UpTo(i + 1), i + 1);
    assert Root(anc, i + 1) == i + 1;
    assert ReachesRoot(E, anc, i + 1);
    assert ParentMatches(E, i + 1, par, anc);
  }

  /** The empty forest before the first vertex. */
  lemma NothingLinked(E: Edges, par: seq<nat>, anc: seq<nat>)
    requires |par| == |anc| >= 1
    requires forall v :: 0 < v < |anc| ==> anc[v] == 0 && par[v] == 0
    ensures Linked(E, 0, {}, par, anc)
  {
  }

  /** Merging the tree of the neighbour k into i takes in the edge (i, k). */
  lemma LinkStep(E: Edges, i: nat, D: set<nat>, k: nat, par: seq<nat>, anc: seq<nat>, par': seq<nat>, anc': seq<nat>)
    requires Symmetric(E) && Linked(E, i, D, par, anc)
    requires (i, k) in E && 0 < k < i
    requires Merged(anc, anc', Root(anc, k), i)
    requires par' == if Root(anc, k) == i then par else par[Root(anc, k) := i]
    ensures Linked(E, i, D + {k}, par', anc')
  {
    var r := Root(anc, k);
    RootBelow(anc, i, k);
    assert Root(anc, i) == i;
    forall v | 0 < v <= i
      ensures ReachesRoot(E, anc', v)
    {
      StepReaches(E, i, k, v, anc, anc');
    }
    forall v | 0 < v <= i
      ensures ParentMatches(E, v, par', anc')
    {
      StepParent(E, i, k, v, par, anc, par', anc');
    }
    assert EdgesShareRoots(E, i, anc') by {
      forall x, y | (x, y) in E && 0 < y < x < i
        ensures Root(anc', x) == Root(anc', y)
      {
        assert Root(anc, x) == Root(anc, y);
      }
    }
  }

  lemma StepReaches(E: Edges, i: nat, k: nat, v: nat, anc: seq<nat>, anc': seq<nat>)
    requires Symmetric(E) && Forest(anc) && (i, k) in E && 0 < k < i < |anc| && 0 < v <= i
    requires Root(anc, k) <= i && ReachesRoot(E, anc, k) && ReachesRoot(E, anc, v)
    requires Merged(anc, anc', Root(anc, k), i)
    ensures ReachesRoot(E, anc', v)
  {
    var r := Root(anc, k);
    if Root(anc, v) == r {
      assert (k, i) in E;
      ConnectedMono(E, UpTo(r), UpTo(i), v, r);
      ConnectedMono(E, UpTo(r), UpTo(i), k, r);
      ConnectedSym(E, UpTo(i), k, r);
      ConnectedTrans(E, UpTo(i), v, r, k);
      ConnectedEdge(E, UpTo(i), k, i);
      ConnectedTrans(E, UpTo(i), v, k, i);
    }
  }

  lemma StepParent(E: Edges, i: nat, k: nat, v: nat, par: seq<nat>, anc: seq<nat>, par': seq<nat>, anc': seq<nat>)
    requires Symmetric(E) && Forest(anc) && |par| == |anc| && (i, k) in E && 0 < k < i < |anc| && 0 < v <= i
    requires EdgesShareRoots(E, i, anc) && Root(anc, k) <= i
    requires ReachesRoot(E, anc, k) && ReachesRoot(E, anc, v) && ParentMatches(E, v, par, anc)
    requires Merged(anc, anc', Root(anc, k), i)
    requires par' == if Root(anc, k) == i then par else par[Root(anc, k) := i]
    ensures ParentMatches(E, v, par', anc')
  {
    var r := Root(anc, k);
    if v == r < i {
      assert anc'[v] != 0 by { assert Root(anc', v) == i; }
      forall k' | r < k' < i
        ensures !Joined(E, r, k')
      {
        RootIsNotJoined(E, i, anc, r, k');
      }
      StepReaches(E, i, k, v, anc, anc');
    }
  }

  lemma {:induction false} RootBelow(anc: seq<nat>, i: nat, v: nat)
    requires Forest(anc) && 0 < v <= i < |anc| && forall u :: 0 < u <= i ==> anc[u] <= i
    ensures Root(anc, v) <= i
    decreases |anc| - v
  {
    if anc[v] != 0 { RootBelow(anc, i, anc[v]); }
  }

  /** Once the last vertex is complete, parent is the elimination tree. */
  lemma LinkedIsEtree(E: Edges, n: nat, D: set<nat>, par: seq<nat>, anc: seq<nat>)
    requires |par| == n + 1 && Symmetric(E) && Linked(E, n, D, par, anc) && AllNeighboursIn(E, n, D)
    ensures IsEtree(E, par)
  {
    ColumnComplete(E, n, D, par, anc);
    forall v | 0 < v <= n
      ensures IsParent(E, n, v, par[v])
    {
      assert ParentMatches(E, v, par, anc);
      if anc[v] == 0 {
        forall k | v < k <= n
          ensures !Joined(E, v, k)
        {
          RootIsNotJoined(E, n + 1, anc, v, k);
        }
      }
    }
  }
}
