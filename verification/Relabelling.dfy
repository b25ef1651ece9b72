/** Equivalent reorderings: relabelling a graph along its elimination tree relabels the tree. */
module Relabelling {
  import opened Graphs
  import opened EliminationTrees
  import opened Permutations

  ghost predicate EdgesWithin(E: Edges, n: nat) {
    forall a, b :: (a, b) in E ==> 0 < a <= n && 0 < b <= n
  }

  ghost function RelabelledEdges(E: Edges, s: seq<nat>): (E': Edges)
    requires |s| >= 1 && EdgesWithin(E, |s| - 1)
  {
    set e | e in E :: (s[e.0], s[e.1])
  }

  lemma RelabelledEdge(E: Edges, s: seq<nat>, a: nat, b: nat)
    requires |s| >= 1 && EdgesWithin(E, |s| - 1) && (a, b) in E
    ensures (s[a], s[b]) in RelabelledEdges(E, s)
  {
    var e := (a, b);
    assert e in E;
  }

  lemma RelabelledEdgesBasics(E: Edges, s: seq<nat>)
    requires IsPermutation(s) && EdgesWithin(E, |s| - 1)
    ensures EdgesWithin(RelabelledEdges(E, s), |s| - 1)
    ensures Symmetric(E) ==> Symmetric(RelabelledEdges(E, s))
  {
    var E' := RelabelledEdges(E, s);
    forall a, b | (a, b) in E'
      ensures 0 < a < |s| && 0 < b < |s|
      ensures Symmetric(E) ==> (b, a) in E'
    {
      var e :| e in E && (a, b) == (s[e.0], s[e.1]);
      if Symmetric(E) {
        RelabelledEdge(E, s, e.1, e.0);
      }
    }
  }

  /** Relabelling twice is relabelling by the composition. */
  lemma RelabelledTwice(E: Edges, s: seq<nat>, t: seq<nat>)
    requires IsPermutation(s) && IsPermutation(t) && |s| == |t| && EdgesWithin(E, |s| - 1)
    ensures EdgesWithin(RelabelledEdges(E, s), |t| - 1)
    ensures RelabelledEdges(RelabelledEdges(E, s), t) == RelabelledEdges(E, Composed(s, t))
  {
    RelabelledEdgesBasics(E, s);
    var E1, E2, E3 := RelabelledEdges(E, s), RelabelledEdges(RelabelledEdges(E, s), t),
      RelabelledEdges(E, Composed(s, t));
    forall x | x in E2
      ensures x in E3
    {
      var d :| d in E1 && x == (t[d.0], t[d.1]);
      var e :| e in E && d == (s[e.0], s[e.1]);
      RelabelledEdge(E, Composed(s, t), e.0, e.1);
    }
    forall x | x in E3
      ensures x in E2
    {
      var e :| e in E && x == (Composed(s, t)[e.0], Composed(s, t)[e.1]);
      RelabelledEdge(E, s, e.0, e.1);
      RelabelledEdge(E1, t, s[e.0], s[e.1]);
    }
  }

  /** q is the parent array of the tree par after vertex v is renamed s[v]. */
  ghost predicate IsRelabelledTree(par: seq<nat>, s: seq<nat>, q: seq<nat>) {
    && |par| == |s| == |q| >= 1
    && forall v :: 0 < v < |par| && 0 < s[v] < |q| && (par[v] == 0 || 0 < par[v] < |s|) ==>
         q[s[v]] == if par[v] == 0 then 0 else s[par[v]]
  }

  /** Every parent is numbered after its child. */
  ghost predicate Topological(par: seq<nat>, s: seq<nat>) {
    && |par| == |s|
    && forall v :: 0 < v < |par| && 0 < par[v] < |s| ==> s[v] < s[par[v]]
  }

  lemma RelabelledTreeIsForest(par: seq<nat>, s: seq<nat>, q: seq<nat>)
    requires Forest(par) && IsPermutation(s) && Topological(par, s) && IsRelabelledTree(par, s, q)
    ensures Forest(q)
  {
    forall w | 0 < w < |q|
      ensures q[w] == 0 || w < q[w] < |q|
    {
      PermutationIsOnto(s, w);
      var v :| 0 < v < |s| && s[v] == w;
      assert par[v] != 0 ==> 0 < par[v] < |s| && 0 < s[par[v]] < |s|;
    }
  }

  lemma {:induction false} AncestorRelabelled(par: seq<nat>, s: seq<nat>, q: seq<nat>, a: nat, v: nat)
    requires Forest(par) && IsPermutation(s) && Topological(par, s) && IsRelabelledTree(par, s, q) && Forest(q)
    requires Ancestor(par, a, v)
    ensures a < |par| && Ancestor(q, s[a], s[v])
    decreases |par| - v
  {
    assert q[s[v]] == s[par[v]];
    if par[v] != a {
      AncestorRelabelled(par, s, q, a, par[v]);
    }
  }

  lemma {:induction false} WalkRelabelled(E: Edges, S: set<nat>, S': set<nat>, s: seq<nat>, a: nat, via: seq<nat>,
                                          b: nat)
    requires |s| >= 1 && EdgesWithin(E, |s| - 1)
    requires forall v :: v in S ==> 0 < v < |s| && s[v] in S'
    requires Walk(E, S, a, via, b)
    ensures a in S && b in S && Connected(RelabelledEdges(E, s), S', s[a], s[b])
    decreases |via|
  {
    var E' := RelabelledEdges(E, s);
    if via == [] {
      ConnectedSelf(E', S', s[a]);
    } else {
      WalkRelabelled(E, S, S', s, via[0], via[1..], b);
      RelabelledEdge(E, s, a, via[0]);
      ConnectedEdge(E', S', s[a], s[via[0]]);
      ConnectedTrans(E', S', s[a], s[via[0]], s[b]);
    }
  }

  lemma RelabelledEdgesFollowTree(E: Edges, par: seq<nat>, s: seq<nat>, q: seq<nat>)
    requires Symmetric(E) && |s| >= 1 && EdgesWithin(E, |s| - 1) && Forest(par) && EdgesFollowTree(E, par)
    requires IsPermutation(s) && Topological(par, s) && IsRelabelledTree(par, s, q) && Forest(q)
    ensures EdgesFollowTree(RelabelledEdges(E, s), q)
  {
    forall x, y | (x, y) in RelabelledEdges(E, s) && 0 < y < x < |q|
      ensures Ancestor(q, x, y)
    {
      var e :| e in E && (x, y) == (s[e.0], s[e.1]);
      assert e == (e.0, e.1);
      if e.1 < e.0 {
        AncestorRelabelled(par, s, q, e.0, e.1);
      } else if e.0 < e.1 {
        assert (e.1, e.0) in E;
        AncestorRelabelled(par, s, q, e.1, e.0);
        AncestorIsLarger(q, s[e.1], s[e.0]);
      }
    }
  }

  lemma RelabelledChildrenAreAttached(E: Edges, par: seq<nat>, s: seq<nat>, q: seq<nat>)
    requires |s| >= 1 && EdgesWithin(E, |s| - 1) && Forest(par) && ChildrenAreAttached(E, par)
    requires IsPermutation(s) && Topological(par, s) && IsRelabelledTree(par, s, q) && Forest(q)
    ensures ChildrenAreAttached(RelabelledEdges(E, s), q)
  {
    forall w | 0 < w < |q| && q[w] != 0
      ensures Connected(RelabelledEdges(E, s), Subtree(q, q[w]), w, q[w])
    {
      PermutationIsOnto(s, w);
      var v :| 0 < v < |s| && s[v] == w;
      var S, S' := Subtree(par, par[v]), Subtree(q, q[w]);
      assert q[w] == s[par[v]];
      forall u | u in S
        ensures 0 < u < |s| && s[u] in S'
      {
        if u != par[v] { AncestorRelabelled(par, s, q, par[v], u); }
      }
      var via :| Walk(E, S, v, via, par[v]);
      WalkRelabelled(E, S, S', s, v, via, par[v]);
    }
  }

  /** Renaming the vertices of a graph so that parents still come after children renames its
      elimination tree: recomputing the tree from scratch would give the renamed one. */
  lemma EquivalentReordering(E: Edges, par: seq<nat>, s: seq<nat>, q: seq<nat>)
    requires Symmetric(E) && |par| >= 1 && EdgesWithin(E, |par| - 1) && IsEtree(E, par)
    requires IsPermutation(s) && Topological(par, s) && IsRelabelledTree(par, s, q)
    ensures IsEtree(RelabelledEdges(E, s), q)
  {
    EtreeIsForest(E, par);
    RelabelledTreeIsForest(par, s, q);
    EtreeCharacterised(E, par);
    RelabelledEdgesFollowTree(E, par, s, q);
    RelabelledChildrenAreAttached(E, par, s, q);
    RelabelledEdgesBasics(E, s);
    EtreeCharacterised(RelabelledEdges(E, s), q);
  }
}
